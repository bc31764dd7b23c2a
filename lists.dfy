/** Integer lists as the solver builds them: `range(...)` and list comprehensions. */
module Lists {

  datatype Option<T> = None | Some(value: T)

  /** `list(range(lo, hi, step))`. */
  function Range(lo: int, hi: int, step: nat): seq<int>
    requires step > 0
    decreases hi - lo
  {
    if lo >= hi then [] else [lo] + Range(lo + step, hi, step)
  }

  /** `[x for x in s if keep(x)]`. */
  function Filter(s: seq<int>, keep: int -> bool): (r: seq<int>)
    ensures |r| <= |s|
    ensures forall x {:trigger x in r} {:trigger keep(x), x in s} :: x in r <==> x in s && keep(x)
  {
    if s == [] then [] else (if keep(s[0]) then [s[0]] else []) + Filter(s[1..], keep)
  }

  /** The first element of `s`, from position `k` on, that passes `keep`: a `for` loop that breaks at it. */
  function FirstFrom(s: seq<int>, keep: int -> bool, k: nat): Option<int>
    decreases |s| - k
  {
    if k >= |s| then None
    else if keep(s[k]) then Some(s[k])
    else FirstFrom(s, keep, k + 1)
  }

  /** What `FirstFrom` returns passes `keep`, and no element before it from `k` on does. */
  lemma {:induction false} FirstFound(s: seq<int>, keep: int -> bool, k: nat)
    requires FirstFrom(s, keep, k).Some?
    ensures exists i :: k <= i < |s| && s[i] == FirstFrom(s, keep, k).value && keep(s[i]) &&
              forall i' :: k <= i' < i ==> !keep(s[i'])
    decreases |s| - k
  {
    if !keep(s[k]) {
      FirstFound(s, keep, k + 1);
      var i :| k + 1 <= i < |s| && s[i] == FirstFrom(s, keep, k + 1).value && keep(s[i]) &&
               forall i' :: k + 1 <= i' < i ==> !keep(s[i']);
      assert forall i' :: k <= i' < i ==> !keep(s[i']);
    }
  }

  /** `FirstFrom` returns `None` only when no element from `k` on passes `keep`. */
  lemma {:induction false} FirstNone(s: seq<int>, keep: int -> bool, k: nat)
    requires FirstFrom(s, keep, k).None?
    ensures forall i :: k <= i < |s| ==> !keep(s[i])
    decreases |s| - k
  {
    if k < |s| {
      FirstNone(s, keep, k + 1);
      forall i | k <= i < |s| ensures !keep(s[i]) {
        if i > k {
          assert k + 1 <= i < |s|;
        }
      }
    }
  }

  /** The elements of `s` that are not in `drop`, in their order. */
  function Without(s: seq<int>, drop: set<int>): (r: seq<int>)
    ensures |r| <= |s|
    ensures forall x :: x in r <==> x in s && x !in drop
  {
    if s == [] then [] else (if s[0] in drop then [] else [s[0]]) + Without(s[1..], drop)
  }

  /** Dropping elements keeps a strictly increasing list strictly increasing. */
  lemma {:induction false} WithoutAscending(s: seq<int>, drop: set<int>)
    requires Ascending(s)
    ensures Ascending(Without(s, drop))
  {
    if s != [] {
      WithoutAscending(s[1..], drop);
      forall x | x in Without(s[1..], drop) ensures s[0] < x {
        var j :| 0 <= j < |s[1..]| && s[1..][j] == x;
        assert s[j + 1] == x;
      }
      if s[0] !in drop {
        AscendingCons(s[0], Without(s[1..], drop));
      }
    }
  }

  /** Nothing of `drop` in `s`: `Without` keeps `s` as it is. */
  lemma {:induction false} WithoutNothing(s: seq<int>, drop: set<int>)
    requires forall i :: 0 <= i < |s| ==> s[i] !in drop
    ensures Without(s, drop) == s
  {
    if s != [] {
      assert s[0] !in drop;
      WithoutNothing(s[1..], drop);
      calc {
        Without(s, drop);
        [s[0]] + Without(s[1..], drop);
        [s[0]] + s[1..];
        s;
      }
    }
  }

  /** Strictly increasing: sorted and free of duplicates. */
  predicate Ascending(s: seq<int>)
  {
    forall i, j :: 0 <= i < j < |s| ==> s[i] < s[j]
  }

  /** No element occurs twice. */
  predicate Distinct(s: seq<int>)
  {
    forall i, j :: 0 <= i < j < |s| ==> s[i] != s[j]
  }

  /** Joining two duplicate-free lists with no common element gives a duplicate-free list. */
  lemma DistinctJoin(a: seq<int>, b: seq<int>)
    requires Distinct(a) && Distinct(b)
    requires forall i :: 0 <= i < |a| ==> a[i] !in b
    ensures Distinct(a + b)
  {
    var s := a + b;
    forall i, j | 0 <= i < j < |s| ensures s[i] != s[j] {
      if i < |a| && j >= |a| {
        assert s[j] == b[j - |a|];
      }
    }
  }

  /** Three strictly increasing lists, pairwise without common elements, join without duplicates. */
  lemma Distinct3(a: seq<int>, b: seq<int>, c: seq<int>)
    requires Ascending(a) && Ascending(b) && Ascending(c)
    requires forall x :: x in a ==> x !in b
    requires forall x :: x in c ==> x !in a && x !in b
    ensures Distinct(a + b + c)
  {
    forall i | 0 <= i < |a| ensures a[i] !in b {
      assert a[i] in a;
    }
    DistinctJoin(a, b);
    forall i | 0 <= i < |a + b| ensures (a + b)[i] !in c {
      if i < |a| {
        assert (a + b)[i] == a[i] && a[i] in a;
      } else {
        assert (a + b)[i] == b[i - |a|] && b[i - |a|] in b;
      }
    }
    DistinctJoin(a + b, c);
  }

  function Elements(s: seq<int>): set<int>
  {
    set x | x in s
  }

  /** One more element of a duplicate-free list is new. */
  lemma ElementsStep(s: seq<int>, i: int)
    requires Distinct(s) && 0 <= i < |s|
    ensures s[i] !in Elements(s[..i])
    ensures Elements(s[..i + 1]) == Elements(s[..i]) + {s[i]}
  {
    assert s[..i + 1] == s[..i] + [s[i]];
  }

  /** A prefix one element longer is the shorter prefix and that element. */
  lemma PrefixStep(s: seq<int>, i: int)
    requires 0 <= i < |s|
    ensures s[..i + 1] == s[..i] + [s[i]]
  {
  }

  lemma {:induction false} RangeMembers(lo: int, hi: int)
    ensures forall x :: x in Range(lo, hi, 1) <==> lo <= x < hi
    decreases hi - lo
  {
    if lo < hi {
      RangeMembers(lo + 1, hi);
    }
  }

  /** With step 9 a range holds the numbers that agree with `lo` modulo 9. */
  lemma {:induction false} RangeMembers9(lo: int, hi: int)
    ensures forall x :: x in Range(lo, hi, 9) <==> lo <= x < hi && x % 9 == lo % 9
    decreases hi - lo
  {
    if lo < hi {
      RangeMembers9(lo + 9, hi);
      assert (lo + 9) % 9 == lo % 9;
      forall x | lo < x < lo + 9 ensures x % 9 != lo % 9 {
      }
    }
  }

  lemma AscendingCons(x: int, s: seq<int>)
    requires Ascending(s)
    requires forall y :: y in s ==> x < y
    ensures Ascending([x] + s)
  {
    var t := [x] + s;
    forall i, j | 0 <= i < j < |t| ensures t[i] < t[j] {
      assert t[j] == s[j - 1];
      if i > 0 {
        assert t[i] == s[i - 1];
      } else {
        assert s[j - 1] in s;
      }
    }
  }

  lemma {:induction false} RangeAscending(lo: int, hi: int, step: nat)
    requires step > 0
    ensures Ascending(Range(lo, hi, step))
    ensures forall x :: x in Range(lo, hi, step) ==> lo <= x
    decreases hi - lo
  {
    if lo < hi {
      RangeAscending(lo + step, hi, step);
      AscendingCons(lo, Range(lo + step, hi, step));
    }
  }

  /** A range holds n elements when n steps of `step` first reach `hi`. */
  lemma {:induction false} RangeLength(lo: int, hi: int, step: nat, n: nat)
    requires step > 0
    requires lo + n * step - step < hi <= lo + n * step
    ensures |Range(lo, hi, step)| == n
    decreases n
  {
    if n > 0 {
      assert lo + (n - 1) * step == lo + n * step - step;
      assert lo < hi;
      RangeLength(lo + step, hi, step, n - 1);
    }
  }

  lemma {:induction false} FilterAscending(s: seq<int>, keep: int -> bool)
    requires Ascending(s)
    ensures Ascending(Filter(s, keep))
  {
    if s != [] {
      FilterAscending(s[1..], keep);
      forall x | x in Filter(s[1..], keep) ensures s[0] < x {
        var j :| 0 <= j < |s[1..]| && s[1..][j] == x;
        assert s[j + 1] == x;
      }
      if keep(s[0]) {
        AscendingCons(s[0], Filter(s[1..], keep));
      }
    }
  }

  /** Filtering one element out of a duplicate-free list shortens it by one. */
  lemma {:induction false} FilterDropsOne(s: seq<int>, keep: int -> bool, p: int)
    requires Ascending(s) && p in s && !keep(p)
    requires forall i :: 0 <= i < |s| && s[i] != p ==> keep(s[i])
    ensures |Filter(s, keep)| == |s| - 1
  {
    if s[0] == p {
      forall i | 0 <= i < |s[1..]| ensures keep(s[1..][i]) {
        assert s[0] < s[i + 1];
      }
      FilterKeepsAll(s[1..], keep);
    } else {
      assert keep(s[0]);
      assert p in s[1..];
      FilterDropsOne(s[1..], keep, p);
    }
  }

  lemma {:induction false} FilterKeepsAll(s: seq<int>, keep: int -> bool)
    requires forall i :: 0 <= i < |s| ==> keep(s[i])
    ensures Filter(s, keep) == s
  {
    if s != [] {
      assert keep(s[0]);
      FilterKeepsAll(s[1..], keep);
      assert Filter(s, keep) == [s[0]] + Filter(s[1..], keep);
      assert s == [s[0]] + s[1..];
    }
  }

  lemma {:induction false} FilterConcat(a: seq<int>, b: seq<int>, keep: int -> bool)
    ensures Filter(a + b, keep) == Filter(a, keep) + Filter(b, keep)
  {
    if a == [] {
      assert a + b == b;
    } else {
      var head := if keep(a[0]) then [a[0]] else [];
      assert (a + b)[0] == a[0];
      assert (a + b)[1..] == a[1..] + b;
      FilterConcat(a[1..], b, keep);
      calc {
        Filter(a + b, keep);
        head + Filter(a[1..] + b, keep);
        head + (Filter(a[1..], keep) + Filter(b, keep));
        (head + Filter(a[1..], keep)) + Filter(b, keep);
        Filter(a, keep) + Filter(b, keep);
      }
    }
  }

  lemma Filter3(x: int, y: int, z: int, keep: int -> bool)
    ensures |Filter([x, y, z], keep)| == (if keep(x) then 1 else 0) + (if keep(y) then 1 else 0) + (if keep(z) then 1 else 0)
  {
    assert [x, y, z][1..] == [y, z];
    assert [y, z][1..] == [z];
    assert [z][1..] == [];
    assert |Filter([z], keep)| == if keep(z) then 1 else 0;
    assert |Filter([y, z], keep)| == (if keep(y) then 1 else 0) + |Filter([z], keep)|;
  }

  /** A stronger test keeps no more elements; strictly fewer when it drops one the weaker keeps. */
  lemma {:induction false} FilterMonotone(s: seq<int>, weak: int -> bool, strong: int -> bool)
    requires forall i :: 0 <= i < |s| && strong(s[i]) ==> weak(s[i])
    ensures |Filter(s, strong)| <= |Filter(s, weak)|
    ensures (exists i :: 0 <= i < |s| && weak(s[i]) && !strong(s[i])) ==> |Filter(s, strong)| < |Filter(s, weak)|
  {
    if s != [] {
      FilterMonotone(s[1..], weak, strong);
      assert Filter(s, weak) == (if weak(s[0]) then [s[0]] else []) + Filter(s[1..], weak);
      assert Filter(s, strong) == (if strong(s[0]) then [s[0]] else []) + Filter(s[1..], strong);
      if exists i :: 0 <= i < |s| && weak(s[i]) && !strong(s[i]) {
        var i :| 0 <= i < |s| && weak(s[i]) && !strong(s[i]);
        if i > 0 {
          assert s[1..][i - 1] == s[i];
        }
      }
    }
  }

  /** A stronger test that drops an element the weaker keeps keeps strictly fewer. */
  lemma {:induction false} FilterShrinks(s: seq<int>, weak: int -> bool, strong: int -> bool, x: int)
    requires forall i :: 0 <= i < |s| && strong(s[i]) ==> weak(s[i])
    requires x in s && weak(x) && !strong(x)
    ensures |Filter(s, strong)| < |Filter(s, weak)|
  {
    var i :| 0 <= i < |s| && s[i] == x;
    FilterMonotone(s, weak, strong);
  }

  lemma HeadIsLeast(s: seq<int>)
    requires Ascending(s) && s != []
    ensures forall x :: x in s ==> s[0] <= x
  {
    forall x | x in s ensures s[0] <= x {
      var i :| 0 <= i < |s| && s[i] == x;
      assert i == 0 || s[0] < s[i];
    }
  }

  /** Two strictly increasing lists with the same elements are the same list. */
  lemma {:induction false} SortedUnique(a: seq<int>, b: seq<int>)
    requires Ascending(a) && Ascending(b)
    requires forall x :: x in a <==> x in b
    ensures a == b
  {
    if a != [] {
      assert a[0] in a;
    }
    if b != [] {
      assert b[0] in b;
    }
    if a != [] {
      HeadIsLeast(a);
      HeadIsLeast(b);
      assert a[0] == b[0];
      forall x ensures x in a[1..] <==> x in b[1..] {
        if x in a[1..] {
          var i :| 1 <= i < |a| && a[i] == x;
          assert a[0] < a[i];
        }
        if x in b[1..] {
          var i :| 1 <= i < |b| && b[i] == x;
          assert b[0] < b[i];
        }
        assert x in a <==> x in a[1..] || x == a[0];
        assert x in b <==> x in b[1..] || x == b[0];
      }
      SortedUnique(a[1..], b[1..]);
      assert a == [a[0]] + a[1..];
      assert b == [b[0]] + b[1..];
    }
  }
}
