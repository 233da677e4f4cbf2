/** Python's `sorted` for lists whose elements are pairwise distinct under a
    strict total order: insertion sort, with the facts that make its result
    the one and only ascending arrangement of the input. */
module Sorting {

  /** `less` is a strict total order on the elements of `xs`. */
  ghost predicate StrictTotalOn<T(!new)>(less: (T, T) -> bool, xs: seq<T>)
  {
    && (forall x | x in xs :: !less(x, x))
    && (forall x, y | x in xs && y in xs && x != y :: less(x, y) || less(y, x))
    && (forall x, y, z | x in xs && y in xs && z in xs :: less(x, y) && less(y, z) ==> less(x, z))
  }

  /** Every earlier element is below every later one. */
  ghost predicate Ascending<T>(s: seq<T>, less: (T, T) -> bool)
  {
    forall i, j | 0 <= i < j < |s| :: less(s[i], s[j])
  }

  /** No element occurs twice. */
  predicate Distinct<T(==)>(s: seq<T>)
  {
    forall i, j | 0 <= i < j < |s| :: s[i] != s[j]
  }

  function Insert<T>(x: T, s: seq<T>, less: (T, T) -> bool): (r: seq<T>)
    ensures multiset(r) == multiset(s) + multiset{x}
    ensures |r| == |s| + 1
  {
    if s == [] || less(x, s[0]) then [x] + s
    else
      assert s == [s[0]] + s[1..];
      [s[0]] + Insert(x, s[1..], less)
  }

  /** `sorted(s)`: the same elements, rearranged. */
  function Sort<T>(s: seq<T>, less: (T, T) -> bool): (r: seq<T>)
    ensures multiset(r) == multiset(s)
    ensures |r| == |s|
  {
    if s == [] then []
    else
      assert s == [s[0]] + s[1..];
      Insert(s[0], Sort(s[1..], less), less)
  }

  /** How many elements of `s` lie below `x`. */
  function CountBelow<T>(s: seq<T>, x: T, less: (T, T) -> bool): (r: nat)
    ensures r <= |s|
  {
    if s == [] then 0 else (if less(s[0], x) then 1 else 0) + CountBelow(s[1..], x, less)
  }

  lemma {:induction false} InsertAscending<T(!new)>(x: T, s: seq<T>, less: (T, T) -> bool)
    requires Ascending(s, less)
    requires x !in s
    requires StrictTotalOn(less, [x] + s)
    ensures Ascending(Insert(x, s, less), less)
  {
    if s == [] || less(x, s[0]) {
      var r := [x] + s;
      forall i, j | 0 <= i < j < |r|
        ensures less(r[i], r[j])
      {
        if i == 0 && j > 1 {
          assert r[1] in [x] + s && r[j] in [x] + s;
        }
      }
    } else {
      assert s[0] in [x] + s;
      assert less(s[0], x);
      var t := s[1..];
      assert Ascending(t, less);
      assert StrictTotalOn(less, [x] + t) by {
        forall y | y in [x] + t ensures y in [x] + s { }
      }
      InsertAscending(x, t, less);
      var it := Insert(x, t, less);
      var r := [s[0]] + it;
      forall j | 0 < j < |r|
        ensures less(s[0], r[j])
      {
        assert r[j] in multiset(it);
        assert r[j] == x || r[j] in t;
        if r[j] != x {
          var k :| 0 <= k < |t| && t[k] == r[j];
          assert s[k + 1] == r[j];
        }
      }
    }
  }

  /** Sorting distinct elements under a strict total order yields them in ascending order. */
  lemma {:induction false} SortAscending<T(!new)>(s: seq<T>, less: (T, T) -> bool)
    requires Distinct(s)
    requires StrictTotalOn(less, s)
    ensures Ascending(Sort(s, less), less)
  {
    if s != [] {
      var t := s[1..];
      assert StrictTotalOn(less, t) by {
        forall y | y in t ensures y in s { }
      }
      SortAscending(t, less);
      var st := Sort(t, less);
      assert s[0] !in st by {
        assert s[0] !in t;
        assert s[0] !in multiset(t);
        assert s[0] !in multiset(st);
      }
      assert StrictTotalOn(less, [s[0]] + st) by {
        forall y | y in [s[0]] + st ensures y in s {
          if y != s[0] {
            assert y in multiset(st);
          }
        }
      }
      InsertAscending(s[0], st, less);
    }
  }

  /** Two ascending arrangements of the same elements are the same sequence:
      any correct sort of distinct keys agrees with `Sort`. */
  lemma {:induction false} AscendingUnique<T(!new)>(a: seq<T>, b: seq<T>, less: (T, T) -> bool)
    requires multiset(a) == multiset(b)
    requires StrictTotalOn(less, a)
    requires Ascending(a, less) && Ascending(b, less)
    ensures a == b
  {
    if a != [] {
      SameHead(a, b, less);
      SameTail(a, b);
      assert StrictTotalOn(less, a[1..]) by {
        forall y | y in a[1..] ensures y in a { }
      }
      AscendingUnique(a[1..], b[1..], less);
      assert a == [a[0]] + a[1..] && b == [b[0]] + b[1..];
    }
  }

  /** Two ascending arrangements of the same elements start alike: each head
      is the least element of both. */
  lemma SameHead<T(!new)>(a: seq<T>, b: seq<T>, less: (T, T) -> bool)
    requires a != []
    requires multiset(a) == multiset(b)
    requires StrictTotalOn(less, a)
    requires Ascending(a, less) && Ascending(b, less)
    ensures b != [] && a[0] == b[0]
  {
    assert a[0] in multiset(b);
    assert b[0] in multiset(a);
  }

  /** Removing equal heads leaves equal multisets. */
  lemma SameTail<T>(a: seq<T>, b: seq<T>)
    requires a != [] && b != [] && a[0] == b[0]
    requires multiset(a) == multiset(b)
    ensures multiset(a[1..]) == multiset(b[1..])
  {
    assert a == [a[0]] + a[1..] && b == [b[0]] + b[1..];
    assert multiset(a) == multiset{a[0]} + multiset(a[1..]);
    assert multiset(b) == multiset{b[0]} + multiset(b[1..]);
    assert multiset(a[1..]) == multiset(a) - multiset{a[0]};
    assert multiset(b[1..]) == multiset(b) - multiset{b[0]};
  }

  /** Inserting does not change how many elements lie below any value. */
  lemma {:induction false} CountBelowInsert<T>(y: T, s: seq<T>, x: T, less: (T, T) -> bool)
    ensures CountBelow(Insert(y, s, less), x, less) == CountBelow([y] + s, x, less)
  {
    if s == [] || less(y, s[0]) {
    } else {
      CountBelowInsert(y, s[1..], x, less);
      var r := Insert(y, s, less);
      assert r[1..] == Insert(y, s[1..], less);
      assert ([y] + s[1..])[1..] == s[1..];
      assert ([y] + s)[1..] == s;
    }
  }

  /** Sorting does not change how many elements lie below any value. */
  lemma {:induction false} CountBelowSort<T>(s: seq<T>, x: T, less: (T, T) -> bool)
    ensures CountBelow(Sort(s, less), x, less) == CountBelow(s, x, less)
  {
    if s != [] {
      CountBelowSort(s[1..], x, less);
      CountBelowInsert(s[0], Sort(s[1..], less), x, less);
      assert ([s[0]] + Sort(s[1..], less))[1..] == Sort(s[1..], less);
    }
  }

  /** In an ascending sequence, the element at position `k` has exactly `k`
      elements below it: positions are ranks. */
  lemma {:induction false} RankIsPosition<T(!new)>(s: seq<T>, k: nat, less: (T, T) -> bool)
    requires k < |s|
    requires StrictTotalOn(less, s)
    requires Ascending(s, less)
    ensures CountBelow(s, s[k], less) == k
  {
    if k == 0 {
      NoneBelow(s[1..], s[0], less) by {
        forall y | y in s[1..] ensures !less(y, s[0]) {
          var j :| 0 <= j < |s[1..]| && s[1..][j] == y;
          assert less(s[0], s[j + 1]);
          assert s[0] in s && s[j + 1] in s;
        }
        assert s[0] in s;
      }
    } else {
      assert less(s[0], s[k]);
      assert StrictTotalOn(less, s[1..]) by {
        forall y | y in s[1..] ensures y in s { }
      }
      RankIsPosition(s[1..], k - 1, less);
    }
  }

  lemma {:induction false} NoneBelow<T>(s: seq<T>, x: T, less: (T, T) -> bool)
    requires forall y | y in s :: !less(y, x)
    ensures CountBelow(s, x, less) == 0
  {
    if s != [] {
      assert s[0] in s;
      NoneBelow(s[1..], x, less) by {
        forall y | y in s[1..] ensures y in s { }
      }
    }
  }
}
