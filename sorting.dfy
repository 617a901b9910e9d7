/** `Array.prototype.sort(compare)`, which is stable: modelled by insertion sort, as a function
    on sequences (`Sort`) and as an in-place method on arrays (`SortArray`) proved equal to it.
    `le(a, b)` is "`compare(a, b) <= 0`": `a` may stay in front of `b`. */
module Sorting {
  import opened Collections

  /** Insert `x` behind every trailing element that may precede it. */
  function Insert<T>(x: T, s: seq<T>, le: (T, T) -> bool): (r: seq<T>)
    ensures |r| == |s| + 1
  {
    if s == [] then [x]
    else if le(s[|s| - 1], x) then s + [x]
    else Insert(x, s[..|s| - 1], le) + [s[|s| - 1]]
  }

  /** Insertion sort: insert each element, from first to last, into the sorted prefix. */
  function Sort<T>(s: seq<T>, le: (T, T) -> bool): (r: seq<T>)
    ensures |r| == |s|
  {
    if s == [] then []
    else Insert(s[|s| - 1], Sort(s[..|s| - 1], le), le)
  }

  /** Inserting adds exactly one occurrence of the inserted element. */
  lemma {:induction false} InsertPermutes<T>(x: T, s: seq<T>, le: (T, T) -> bool)
    ensures multiset(Insert(x, s, le)) == multiset(s) + multiset{x}
  {
    if s != [] && !le(s[|s| - 1], x) {
      var init := s[..|s| - 1];
      assert s == init + [s[|s| - 1]];
      InsertPermutes(x, init, le);
    }
  }

  /** Sorting is a permutation: the result holds the same elements, each as often. */
  lemma {:induction false} SortPermutes<T>(s: seq<T>, le: (T, T) -> bool)
    ensures multiset(Sort(s, le)) == multiset(s)
  {
    if s != [] {
      var init := s[..|s| - 1];
      assert s == init + [s[|s| - 1]];
      SortPermutes(init, le);
      InsertPermutes(s[|s| - 1], Sort(init, le), le);
    }
  }

  ghost predicate Sorted<T>(s: seq<T>, le: (T, T) -> bool) {
    forall i, j :: 0 <= i < j < |s| ==> le(s[i], s[j])
  }

  /** `le` is total and transitive on the elements of `s`: the comparator is consistent there. */
  ghost predicate PreorderOn<T>(s: seq<T>, le: (T, T) -> bool) {
    && (forall a, b :: a in s && b in s ==> le(a, b) || le(b, a))
    && (forall a, b, c :: a in s && b in s && c in s && le(a, b) && le(b, c) ==> le(a, c))
  }

  lemma {:induction false} InsertSorted<T>(x: T, s: seq<T>, le: (T, T) -> bool)
    requires Sorted(s, le) && PreorderOn(s + [x], le)
    ensures Sorted(Insert(x, s, le), le)
    decreases |s|
  {
    if s != [] {
      var last := s[|s| - 1];
      var init := s[..|s| - 1];
      assert last in s + [x];
      assert x in s + [x];
      if le(last, x) {
        forall i | 0 <= i < |s| ensures le(s[i], x) {
          assert s[i] in s + [x];
          if i < |s| - 1 {
            assert le(s[i], last);
          }
        }
      } else {
        assert le(x, last);
        forall a | a in init + [x] ensures a in s + [x] {
        }
        InsertSorted(x, init, le);
        var r := Insert(x, init, le);
        InsertPermutes(x, init, le);
        forall k | 0 <= k < |r| ensures le(r[k], last) {
          assert r[k] in multiset(r);
          assert r[k] in multiset(init) + multiset{x};
          if r[k] != x {
            assert r[k] in init;
            var i :| 0 <= i < |init| && init[i] == r[k];
            assert s[i] == r[k];
          }
        }
      }
    }
  }

  /** On a comparator that is consistent over the input, the result is ordered. */
  lemma {:induction false} SortSorted<T>(s: seq<T>, le: (T, T) -> bool)
    requires PreorderOn(s, le)
    ensures Sorted(Sort(s, le), le)
  {
    if s != [] {
      var init := s[..|s| - 1];
      var x := s[|s| - 1];
      forall a | a in init ensures a in s {
      }
      SortSorted(init, le);
      var sorted := Sort(init, le);
      SortPermutes(init, le);
      forall a | a in sorted + [x] ensures a in s {
        if a != x {
          assert a in multiset(sorted);
        }
      }
      InsertSorted(x, sorted, le);
    }
  }

  /** Elements that compare equal to `x` in both directions. */
  function Ties<T>(x: T, le: (T, T) -> bool): T -> bool {
    y => le(x, y) && le(y, x)
  }

  lemma FilterSingleton<T(!new)>(z: T, p: T -> bool)
    ensures Filter([z], p) == if p(z) then [z] else []
  {
    assert [z][..0] == [];
  }

  /** An element that must follow `y` cannot tie with `x` when `y` does. */
  lemma PassedOverIsNoTie<T>(y: T, last: T, x: T, le: (T, T) -> bool, s: seq<T>)
    requires PreorderOn(s, le) && y in s && last in s && x in s
    requires !le(last, y)
    ensures !(Ties(x, le)(y) && Ties(x, le)(last))
  {
  }

  lemma {:induction false} InsertKeepsTieOrder<T(!new)>(y: T, t: seq<T>, le: (T, T) -> bool, x: T)
    requires PreorderOn(t + [x, y], le)
    ensures Filter(Insert(y, t, le), Ties(x, le)) == Filter(t, Ties(x, le)) + Filter([y], Ties(x, le))
    decreases |t|
  {
    var tie := Ties(x, le);
    if t == [] {
      assert Insert(y, t, le) == [y];
    } else if le(t[|t| - 1], y) {
      FilterAppend(t, [y], tie);
    } else {
      var init := t[..|t| - 1];
      var last := t[|t| - 1];
      assert t == init + [last];
      PreorderOnSubset(init + [x, y], t + [x, y], le);
      InsertKeepsTieOrder(y, init, le, x);
      var inserted := Insert(y, init, le);
      assert Insert(y, t, le) == inserted + [last];
      FilterAppend(inserted, [last], tie);
      FilterAppend(init, [last], tie);
      PassedOverIsNoTie(y, last, x, le, t + [x, y]);
      FilterSingleton(y, tie);
      FilterSingleton(last, tie);
      ConcatSwap(Filter(init, tie), Filter([y], tie), Filter([last], tie));
    }
  }

  lemma ConcatSwap<T>(a: seq<T>, b: seq<T>, c: seq<T>)
    requires b == [] || c == []
    ensures a + b + c == a + c + b
  {
  }

  lemma PreorderOnSubset<T>(s: seq<T>, t: seq<T>, le: (T, T) -> bool)
    requires forall a :: a in s ==> a in t
    requires PreorderOn(t, le)
    ensures PreorderOn(s, le)
  {
  }

  /** Stability: the elements that tie with any `x` come out in their input order. */
  lemma {:induction false} SortStable<T(!new)>(s: seq<T>, le: (T, T) -> bool, x: T)
    requires PreorderOn(s + [x], le)
    ensures Filter(Sort(s, le), Ties(x, le)) == Filter(s, Ties(x, le))
  {
    if s != [] {
      var init := s[..|s| - 1];
      var y := s[|s| - 1];
      assert s == init + [y];
      forall a | a in init + [x] ensures a in s + [x] {
      }
      SortStable(init, le, x);
      var sorted := Sort(init, le);
      SortPermutes(init, le);
      forall a | a in sorted + [x, y] ensures a in s + [x] {
        if a in sorted {
          assert a in multiset(sorted);
        }
      }
      InsertKeepsTieOrder(y, sorted, le, x);
      FilterAppend(init, [y], Ties(x, le));
    }
  }

  /** Insertion passes over exactly the trailing elements that must follow `x` and stops
      at the front or behind an element that may precede it. */
  lemma {:induction false} InsertPosition<T>(x: T, s: seq<T>, j: nat, le: (T, T) -> bool)
    requires j <= |s| && (j == 0 || le(s[j - 1], x))
    requires forall k :: j <= k < |s| ==> !le(s[k], x)
    ensures Insert(x, s, le) == s[..j] + [x] + s[j..]
    decreases |s|
  {
    if |s| == j {
      if j > 0 {
        assert s[..j] == s;
      }
    } else {
      var init := s[..|s| - 1];
      assert init[..j] == s[..j] && init[j..] + [s[|s| - 1]] == s[j..];
      InsertPosition(x, init, j, le);
    }
  }

  /** A sequence laid out as `s[..j]`, then `x`, then `s[j..]`, with `j` where insertion stops,
      is the insertion of `x` into `s`. */
  lemma ShiftedIsInsert<T>(x: T, s: seq<T>, j: nat, r: seq<T>, le: (T, T) -> bool)
    requires j <= |s| && (j == 0 || le(s[j - 1], x))
    requires forall k :: j <= k < |s| ==> !le(s[k], x)
    requires |r| == |s| + 1 && r[j] == x
    requires forall k :: 0 <= k < j ==> r[k] == s[k]
    requires forall k :: j < k < |r| ==> r[k] == s[k - 1]
    ensures r == Insert(x, s, le)
  {
    var inserted := s[..j] + [x] + s[j..];
    assert |inserted| == |r|;
    forall k | 0 <= k < |r|
      ensures r[k] == inserted[k]
    {
      if k < j {
        assert inserted[k] == s[k];
      } else if k > j {
        assert inserted[k] == s[k - 1];
      }
    }
    assert r == inserted;
    InsertPosition(x, s, j, le);
  }

  /** Inserts `a[i]` into the sorted run `a[..i]`, shifting larger elements one place right. */
  method InsertInPlace<T>(a: array<T>, i: nat, le: (T, T) -> bool)
    requires i < a.Length
    modifies a
    ensures a[..i + 1] == Insert(old(a[i]), old(a[..i]), le)
    ensures forall k :: i < k < a.Length ==> a[k] == old(a[k])
  {
    ghost var sorted := a[..i];
    var x := a[i];
    var j := i;
    while j > 0 && !le(a[j - 1], x)
      invariant 0 <= j <= i
      invariant forall k :: 0 <= k < j ==> a[k] == sorted[k]
      invariant forall k :: j < k <= i ==> a[k] == sorted[k - 1]
      invariant forall k :: i < k < a.Length ==> a[k] == old(a[k])
      invariant forall k :: j <= k < i ==> !le(sorted[k], x)
    {
      a[j] := a[j - 1];
      j := j - 1;
    }
    a[j] := x;
    ShiftedIsInsert(x, sorted, j, a[..i + 1], le);
  }

  /** Sorts `a` in place: the prefix `a[..i]` is always the sorted image of the first `i`
      input elements. */
  method SortArray<T>(a: array<T>, le: (T, T) -> bool)
    modifies a
    ensures a[..] == Sort(old(a[..]), le)
  {
    var i := 0;
    while i < a.Length
      invariant 0 <= i <= a.Length
      invariant a[..i] == Sort(old(a[..])[..i], le)
      invariant forall k :: i <= k < a.Length ==> a[k] == old(a[k])
    {
      assert old(a[..])[..i + 1] == old(a[..])[..i] + [a[i]];
      InsertInPlace(a, i, le);
      i := i + 1;
    }
    assert a[..] == a[..a.Length] && old(a[..]) == old(a[..])[..a.Length];
  }
}
