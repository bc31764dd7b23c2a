/**
 * The state of one cell (`GridCell`): its list of candidate values
 * ("pencil marks") and what `get_value` shows for it.
 */
module Cells {
  import opened Lists

  /** `list(range(1, 10))`: the marks every cell starts with. */
  function Digits(): seq<int>
  {
    Range(1, DigitEnd, 1)
  }

  /** The exclusive upper bound of `range(1, 10)`. */
  const DigitEnd: int := 10

  /** A mark list as the solver keeps it: values 1..9 in strictly ascending order. */
  predicate IsMarkList(s: seq<int>)
  {
    Ascending(s) && forall i :: 0 <= i < |s| ==> 1 <= s[i] <= 9
  }

  /** `list.remove(v)`: drops the first occurrence of `v`. */
  function RemoveFirst(s: seq<int>, v: int): (r: seq<int>)
    requires v in s
    ensures multiset(r) == multiset(s) - multiset{v}
  {
    assert s == [s[0]] + s[1..];
    if s[0] == v then s[1..] else [s[0]] + RemoveFirst(s[1..], v)
  }

  /** `GridCell.remove_mark`: remove `v` if it is present, otherwise leave the list alone. */
  function RemoveMark(s: seq<int>, v: int): (r: seq<int>)
    ensures multiset(r) == multiset(s) - multiset{v}
  {
    if v in s then RemoveFirst(s, v) else s
  }

  /** What `get_value` shows: the digit of a solved cell, "X" for an unsolved one. */
  datatype Symbol = Digit(value: int) | Unknown

  /**
   * `GridCell.get_value`. Reading `PencilMarks[0]` of a solved cell whose
   * list is empty raises IndexError: that is `None` here.
   */
  function GetValue(marks: seq<int>, solved: bool): Option<Symbol>
  {
    if !solved then Some(Unknown)
    else if marks == [] then None
    else Some(Digit(marks[0]))
  }

  /** The initial marks are the nine digits in order. */
  lemma {:induction false} DigitsSpec()
    ensures IsMarkList(Digits()) && |Digits()| == 9
    ensures forall v :: v in Digits() <==> 1 <= v <= 9
  {
    var d := Digits();
    RangeMembers(1, 10);
    RangeAscending(1, 10, 1);
    RangeLength(1, 10, 1, 9);
    forall i | 0 <= i < |d| ensures 1 <= d[i] <= 9 {
      assert d[i] in d;
    }
  }

  lemma {:induction false} RemoveFirstAscending(s: seq<int>, v: int)
    requires Ascending(s) && v in s
    ensures Ascending(RemoveFirst(s, v))
    ensures forall x :: x in RemoveFirst(s, v) <==> x in s && x != v
  {
    HeadIsLeast(s);
    if s[0] == v {
      forall x | x in s[1..] ensures x != v {
        var i :| 0 <= i < |s[1..]| && s[1..][i] == x;
        assert s[0] < s[i + 1];
      }
    } else {
      assert v in s[1..];
      RemoveFirstAscending(s[1..], v);
      forall x | x in RemoveFirst(s[1..], v) ensures s[0] < x {
        var i :| 0 <= i < |s[1..]| && s[1..][i] == x;
        assert s[0] < s[i + 1];
      }
      AscendingCons(s[0], RemoveFirst(s[1..], v));
    }
  }

  /**
   * On a mark list, `remove_mark(v)` deletes exactly `v` if present, keeps
   * the rest ascending, and shortens the list by one exactly when `v` was there.
   */
  lemma {:induction false} RemoveMarkSpec(s: seq<int>, v: int)
    requires IsMarkList(s)
    ensures IsMarkList(RemoveMark(s, v))
    ensures forall x :: x in RemoveMark(s, v) <==> x in s && x != v
    ensures |RemoveMark(s, v)| == if v in s then |s| - 1 else |s|
  {
    if v in s {
      RemoveFirstAscending(s, v);
      var r := RemoveFirst(s, v);
      assert |multiset(r)| == |multiset(s)| - 1;
      forall i | 0 <= i < |r| ensures 1 <= r[i] <= 9 {
        assert r[i] in r;
      }
    }
  }

  /** Removing a mark twice is the same as removing it once. */
  lemma {:induction false} RemoveMarkIdempotent(s: seq<int>, v: int)
    requires IsMarkList(s)
    ensures RemoveMark(RemoveMark(s, v), v) == RemoveMark(s, v)
  {
    RemoveMarkSpec(s, v);
  }

  /** Removing the marks of `drop` keeps a mark list a mark list. */
  lemma {:induction false} WithoutSpec(s: seq<int>, drop: set<int>)
    requires IsMarkList(s)
    ensures IsMarkList(Without(s, drop))
    ensures forall x :: x in Without(s, drop) <==> x in s && x !in drop
  {
    var r := Without(s, drop);
    WithoutAscending(s, drop);
    forall i | 0 <= i < |r| ensures 1 <= r[i] <= 9 {
      assert r[i] in r;
    }
  }

  /** Removing the marks of a set one at a time, in any order, removes the whole set. */
  lemma {:induction false} RemoveMarkWithout(s: seq<int>, drop: set<int>, v: int)
    requires IsMarkList(s)
    ensures RemoveMark(Without(s, drop), v) == Without(s, drop + {v})
  {
    WithoutSpec(s, drop);
    WithoutSpec(s, drop + {v});
    RemoveMarkSpec(Without(s, drop), v);
    SortedUnique(RemoveMark(Without(s, drop), v), Without(s, drop + {v}));
  }
}
