/**
  Sorting by a comparison, as `slices.SortFunc` promises it: some sorted permutation,
  which of them is not said when elements tie. When is there only one?
*/
module Sorting {
  import opened Permutations

  /** A comparison under which elements may tie. */
  ghost predicate TotalPreorder<T(!new)>(le: (T, T) -> bool) {
    && (forall x, y :: le(x, y) || le(y, x))
    && (forall x, y, z :: le(x, y) && le(y, z) ==> le(x, z))
  }

  ghost predicate Sorted<T>(s: seq<T>, le: (T, T) -> bool) {
    forall i, j :: 0 <= i < j < |s| ==> le(s[i], s[j])
  }

  ghost predicate SortedPermutation<T>(s: seq<T>, items: seq<T>, le: (T, T) -> bool) {
    multiset(s) == multiset(items) && Sorted(s, le)
  }

  /** No two different elements compare as equal. */
  ghost predicate NoTies<T>(items: seq<T>, le: (T, T) -> bool) {
    forall x, y :: x in items && y in items && le(x, y) && le(y, x) ==> x == y
  }

  function Insert<T>(x: T, s: seq<T>, le: (T, T) -> bool): (r: seq<T>)
    ensures multiset(r) == multiset(s) + multiset{x}
  {
    if s == [] then [x]
    else if le(x, s[0]) then [x] + s
    else
      assert s == [s[0]] + s[1..];
      [s[0]] + Insert(x, s[1..], le)
  }

  lemma {:induction false} InsertSorted<T(!new)>(x: T, s: seq<T>, le: (T, T) -> bool)
    requires TotalPreorder(le) && Sorted(s, le)
    ensures Sorted(Insert(x, s, le), le)
    decreases s
  {
    if s == [] || le(x, s[0]) {
    } else {
      var r := Insert(x, s[1..], le);
      InsertSorted(x, s[1..], le);
      forall k | 0 <= k < |r|
        ensures le(s[0], r[k])
      {
        assert r[k] in multiset(r);
        if r[k] != x {
          assert r[k] in s[1..];
        }
      }
    }
  }

  /** Some sorted permutation; callers know no more. */
  method SortFunc<T(!new)>(items: seq<T>, le: (T, T) -> bool) returns (sorted: seq<T>)
    requires TotalPreorder(le)
    ensures SortedPermutation(sorted, items, le)
  {
    sorted := [];
    for i := 0 to |items|
      invariant SortedPermutation(sorted, items[..i], le)
    {
      InsertSorted(items[i], sorted, le);
      assert items[..i + 1] == items[..i] + [items[i]];
      sorted := Insert(items[i], sorted, le);
    }
    assert items[..|items|] == items;
  }

  lemma {:induction false} SortedExists<T(!new)>(items: seq<T>, le: (T, T) -> bool)
    requires TotalPreorder(le)
    ensures exists s :: SortedPermutation(s, items, le)
  {
    if items == [] {
      assert SortedPermutation([], items, le);
    } else {
      var front, x := items[..|items| - 1], items[|items| - 1];
      assert items == front + [x];
      SortedExists(front, le);
      var t :| SortedPermutation(t, front, le);
      InsertSorted(x, t, le);
      assert SortedPermutation(Insert(x, t, le), items, le);
    }
  }

  lemma SameFirst<T(!new)>(s: seq<T>, t: seq<T>, le: (T, T) -> bool)
    requires TotalPreorder(le) && Sorted(s, le) && Sorted(t, le) && NoTies(s, le)
    requires multiset(s) == multiset(t) && s != []
    ensures t != [] && s[0] == t[0]
  {
    SameMembers(s, t);
    assert s[0] in t;
    assert t[0] in s;
    var i :| 0 <= i < |s| && s[i] == t[0];
    var j :| 0 <= j < |t| && t[j] == s[0];
    assert le(s[0], t[0]) && le(t[0], s[0]);
  }

  lemma SameTails<T>(s: seq<T>, t: seq<T>)
    requires multiset(s) == multiset(t) && s != [] && t != [] && s[0] == t[0]
    ensures multiset(s[1..]) == multiset(t[1..])
  {
    assert s == [s[0]] + s[1..] && t == [t[0]] + t[1..];
    assert multiset(s[1..]) == multiset(s) - multiset{s[0]};
    assert multiset(t[1..]) == multiset(t) - multiset{t[0]};
  }

  /** Without ties there is only one sorted permutation. */
  lemma {:induction false} SortedIsUnique<T(!new)>(s: seq<T>, t: seq<T>, le: (T, T) -> bool)
    requires TotalPreorder(le) && Sorted(s, le) && Sorted(t, le) && NoTies(s, le)
    requires multiset(s) == multiset(t)
    ensures s == t
  {
    if s == [] {
      assert |multiset(t)| == 0;
    } else {
      SameFirst(s, t, le);
      SameTails(s, t);
      SortedIsUnique(s[1..], t[1..], le);
    }
  }

  /** Swapping two elements that tie keeps a list sorted. */
  lemma SwapTied<T(!new)>(s: seq<T>, i: nat, j: nat, le: (T, T) -> bool)
    requires TotalPreorder(le) && i < |s| && j < |s| && Sorted(s, le) && le(s[i], s[j]) && le(s[j], s[i])
    ensures SortedPermutation(s[i := s[j]][j := s[i]], s, le)
  {
    var t := s[i := s[j]][j := s[i]];
    forall k | 0 <= k < |s|
      ensures le(s[k], t[k]) && le(t[k], s[k])
    {
      assert t[k] == if k == j then s[i] else if k == i then s[j] else s[k];
      assert le(s[k], s[k]);
    }
    forall k, m | 0 <= k < m < |t|
      ensures le(t[k], t[m])
    {
      assert le(t[k], s[k]) && le(s[k], s[m]) && le(s[m], t[m]);
      assert le(t[k], s[m]);
    }
  }

  lemma TwoSortedForms<T(!new)>(items: seq<T>, le: (T, T) -> bool)
    requires TotalPreorder(le) && !NoTies(items, le)
    ensures exists s, t :: SortedPermutation(s, items, le) && SortedPermutation(t, items, le) && s != t
  {
    var x, y :| x in items && y in items && le(x, y) && le(y, x) && x != y;
    SortedExists(items, le);
    var s :| SortedPermutation(s, items, le);
    SameMembers(s, items);
    assert x in s && y in s;
    var i :| 0 <= i < |s| && s[i] == x;
    var j :| 0 <= j < |s| && s[j] == y;
    SwapTied(s, i, j, le);
    var t := s[i := s[j]][j := s[i]];
    assert t[i] == y;
    assert SortedPermutation(t, items, le);
  }

  /** Lists of the same elements have one sorted form in common if and only if no two different elements tie. */
  lemma SortedFormUniqueIff<T(!new)>(items: seq<T>, le: (T, T) -> bool)
    requires TotalPreorder(le)
    ensures (forall s, t :: SortedPermutation(s, items, le) && SortedPermutation(t, items, le) ==> s == t)
       <==> NoTies(items, le)
  {
    if NoTies(items, le) {
      forall s, t | SortedPermutation(s, items, le) && SortedPermutation(t, items, le)
        ensures s == t
      {
        SameMembers(s, items);
        SortedIsUnique(s, t, le);
      }
    } else {
      TwoSortedForms(items, le);
    }
  }
}
