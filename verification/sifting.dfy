/**
  Sifting a list in order: an item is dropped or kept by a judgement that may use the
  codes of the items dropped before it. When does the order of the list matter?
*/
module Sifting {
  import opened Permutations

  /** How items are judged, given the codes known so far, and the code each contributes when dropped. */
  datatype Judge<!T> = Judge(drops: (T, set<string>) -> bool, code: T -> string)

  /** Knowing more codes never rescues an item. */
  ghost predicate Monotone<T(!new)>(j: Judge<T>) {
    forall x, fewer, more :: fewer <= more && j.drops(x, fewer) ==> j.drops(x, more)
  }

  datatype Sifted<T> = Sifted(kept: seq<T>, dropped: seq<T>, codes: set<string>)

  function Remember(codes: set<string>, code: string): set<string> {
    if code != "" then codes + {code} else codes
  }

  /** The list sifted from its first item to its last. */
  function Sift<T>(items: seq<T>, codes: set<string>, j: Judge<T>): Sifted<T> {
    if items == [] then Sifted([], [], codes)
    else
      var s, x := Sift(items[..|items| - 1], codes, j), items[|items| - 1];
      if j.drops(x, s.codes) then Sifted(s.kept, s.dropped + [x], Remember(s.codes, j.code(x)))
      else Sifted(s.kept + [x], s.dropped, s.codes)
  }

  /** The items that the given codes alone drop (or keep). */
  function Select<T>(items: seq<T>, codes: set<string>, dropped: bool, j: Judge<T>): seq<T> {
    if items == [] then []
    else
      var x := items[|items| - 1];
      Select(items[..|items| - 1], codes, dropped, j) + if j.drops(x, codes) == dropped then [x] else []
  }

  lemma {:induction false} SelectMembers<T>(items: seq<T>, codes: set<string>, dropped: bool, j: Judge<T>)
    ensures forall x :: x in Select(items, codes, dropped, j) <==> x in items && j.drops(x, codes) == dropped
  {
    if items == [] {
    } else {
      assert items == items[..|items| - 1] + [items[|items| - 1]];
      SelectMembers(items[..|items| - 1], codes, dropped, j);
    }
  }

  lemma {:induction false} SelectCounts<T>(items: seq<T>, codes: set<string>, dropped: bool, j: Judge<T>, x: T)
    ensures multiset(Select(items, codes, dropped, j))[x] == if j.drops(x, codes) == dropped then multiset(items)[x] else 0
  {
    if items == [] {
    } else {
      assert items == items[..|items| - 1] + [items[|items| - 1]];
      SelectCounts(items[..|items| - 1], codes, dropped, j, x);
    }
  }

  lemma SelectSame<T>(a: seq<T>, b: seq<T>, codes: set<string>, dropped: bool, j: Judge<T>)
    requires multiset(a) == multiset(b)
    ensures multiset(Select(a, codes, dropped, j)) == multiset(Select(b, codes, dropped, j))
  {
    forall x
      ensures multiset(Select(a, codes, dropped, j))[x] == multiset(Select(b, codes, dropped, j))[x]
    {
      SelectCounts(a, codes, dropped, j, x);
      SelectCounts(b, codes, dropped, j, x);
    }
    SameCounts(multiset(Select(a, codes, dropped, j)), multiset(Select(b, codes, dropped, j)));
  }

  /** Selecting the dropped items and then the kept ones only reorders the list. */
  lemma SelectPermutes<T>(items: seq<T>, codes: set<string>, j: Judge<T>)
    ensures multiset(Select(items, codes, true, j) + Select(items, codes, false, j)) == multiset(items)
  {
    var sum := multiset(Select(items, codes, true, j)) + multiset(Select(items, codes, false, j));
    forall x
      ensures multiset(Select(items, codes, true, j))[x] + multiset(Select(items, codes, false, j))[x] == multiset(items)[x]
    {
      SelectCounts(items, codes, true, j, x);
      SelectCounts(items, codes, false, j, x);
    }
    SameCounts(sum, multiset(items));
  }

  /** The codes known once everything that `codes` alone drops has been seen. */
  ghost function Gathered<T>(items: seq<T>, codes: set<string>, j: Judge<T>): set<string> {
    codes + set x | x in items && j.code(x) != "" && j.drops(x, codes) :: j.code(x)
  }

  /** No item is dropped only thanks to the codes gathered from others. */
  ghost predicate Settled<T>(items: seq<T>, codes: set<string>, j: Judge<T>) {
    forall x :: x in items && j.drops(x, Gathered(items, codes, j)) ==> j.drops(x, codes)
  }

  lemma GatherOne<T>(front: seq<T>, x: T, codes: set<string>, j: Judge<T>)
    ensures Gathered(front + [x], codes, j)
         == if j.drops(x, codes) then Remember(Gathered(front, codes, j), j.code(x)) else Gathered(front, codes, j)
  {
    assert forall y :: y in front + [x] <==> y in front || y == x;
  }

  /**
    The codes collected on the way do not influence the outcome of settled items: each
    is judged as if it came first.
  */
  lemma {:induction false} GrowthIsHarmless<T(!new)>(items: seq<T>, all: seq<T>, codes: set<string>, j: Judge<T>)
    requires Monotone(j) && Settled(all, codes, j) && forall x :: x in items ==> x in all
    ensures Sift(items, codes, j)
         == Sifted(Select(items, codes, false, j), Select(items, codes, true, j), Gathered(items, codes, j))
  {
    if items == [] {
    } else {
      var front, x := items[..|items| - 1], items[|items| - 1];
      assert items == front + [x];
      GrowthIsHarmless(front, all, codes, j);
      GatherOne(front, x, codes, j);
      assert codes <= Gathered(front, codes, j) <= Gathered(all, codes, j);
      assert j.drops(x, Gathered(front, codes, j)) == j.drops(x, codes);
    }
  }

  lemma GatheredSame<T>(a: seq<T>, b: seq<T>, codes: set<string>, j: Judge<T>)
    requires forall x :: x in a <==> x in b
    ensures Gathered(a, codes, j) == Gathered(b, codes, j)
  {
  }

  ghost predicate SameVerdicts<T>(p: Sifted<T>, q: Sifted<T>) {
    multiset(p.kept) == multiset(q.kept) && multiset(p.dropped) == multiset(q.dropped)
  }

  /** Settled items give the same kept and dropped multisets in every order. */
  lemma SettledInAnyOrder<T(!new)>(a: seq<T>, b: seq<T>, codes: set<string>, j: Judge<T>)
    requires Monotone(j) && multiset(a) == multiset(b) && Settled(a, codes, j)
    ensures SameVerdicts(Sift(a, codes, j), Sift(b, codes, j))
    ensures Sift(a, codes, j).codes == Sift(b, codes, j).codes
  {
    SameMembers(a, b);
    GrowthIsHarmless(a, a, codes, j);
    GrowthIsHarmless(b, a, codes, j);
    SelectSame(a, b, codes, false, j);
    SelectSame(a, b, codes, true, j);
    GatheredSame(a, b, codes, j);
  }

  /** What has been decided about the first items stays when more follow. */
  lemma {:induction false} MoreFollow<T>(a: seq<T>, b: seq<T>, codes: set<string>, j: Judge<T>)
    ensures Sift(a, codes, j).kept <= Sift(a + b, codes, j).kept
    ensures Sift(a, codes, j).codes <= Sift(a + b, codes, j).codes
  {
    if b == [] {
      assert a + b == a;
    } else {
      assert (a + b)[..|a + b| - 1] == a + b[..|b| - 1];
      MoreFollow(a, b[..|b| - 1], codes, j);
    }
  }

  lemma {:induction false} DroppedFirst<T(!new)>(items: seq<T>, codes: set<string>, j: Judge<T>)
    requires Monotone(j) && forall x :: x in items ==> j.drops(x, codes)
    ensures Sift(items, codes, j).kept == []
    ensures codes <= Sift(items, codes, j).codes
    ensures forall x :: x in items && j.code(x) != "" ==> j.code(x) in Sift(items, codes, j).codes
  {
    if items == [] {
    } else {
      var front, x := items[..|items| - 1], items[|items| - 1];
      assert items == front + [x];
      DroppedFirst(front, codes, j);
      assert x in items && j.drops(x, codes);
      assert j.drops(x, Sift(front, codes, j).codes);
    }
  }

  /** An item that the codes of `a` drop is never kept behind `a`. */
  lemma {:induction false} NotKeptBehind<T(!new)>(a: seq<T>, b: seq<T>, codes: set<string>, j: Judge<T>, x: T)
    requires Monotone(j) && j.drops(x, Sift(a, codes, j).codes) && x !in Sift(a, codes, j).kept
    ensures x !in Sift(a + b, codes, j).kept
  {
    if b == [] {
      assert a + b == a;
    } else {
      var front := b[..|b| - 1];
      assert (a + b)[..|a + b| - 1] == a + front;
      NotKeptBehind(a, front, codes, j, x);
      MoreFollow(a, front, codes, j);
    }
  }

  lemma KeptWhenFirst<T>(x: T, rest: seq<T>, codes: set<string>, j: Judge<T>)
    requires !j.drops(x, codes)
    ensures x in Sift([x] + rest, codes, j).kept
  {
    assert [x][..0] == [] && Sift([x], codes, j).kept == [x];
    MoreFollow([x], rest, codes, j);
    assert Sift([x] + rest, codes, j).kept[0] == x;
  }

  lemma NotKeptWhenLast<T(!new)>(items: seq<T>, codes: set<string>, j: Judge<T>, x: T)
    requires Monotone(j) && j.drops(x, Gathered(items, codes, j))
    ensures x !in Sift(Select(items, codes, true, j) + Select(items, codes, false, j), codes, j).kept
  {
    var first := Select(items, codes, true, j);
    SelectMembers(items, codes, true, j);
    DroppedFirst(first, codes, j);
    assert Gathered(items, codes, j) <= Sift(first, codes, j).codes;
    NotKeptBehind(first, Select(items, codes, false, j), codes, j, x);
  }

  /** An item that only gathered codes drop is kept in one order and not in another. */
  lemma UnsettledOrders<T(!new)>(items: seq<T>, codes: set<string>, j: Judge<T>, i: nat) returns (early: seq<T>, late: seq<T>)
    requires Monotone(j) && i < |items|
    requires j.drops(items[i], Gathered(items, codes, j)) && !j.drops(items[i], codes)
    ensures multiset(early) == multiset(items) == multiset(late)
    ensures items[i] in Sift(early, codes, j).kept && items[i] !in Sift(late, codes, j).kept
  {
    var x, others := items[i], items[..i] + items[i + 1..];
    early := [x] + others;
    assert items == items[..i] + [x] + items[i + 1..];
    KeptWhenFirst(x, others, codes, j);
    late := Select(items, codes, true, j) + Select(items, codes, false, j);
    NotKeptWhenLast(items, codes, j, x);
    SelectPermutes(items, codes, j);
  }

  /** Unsettled items have an order in which others are kept. */
  lemma OtherVerdicts<T(!new)>(items: seq<T>, codes: set<string>, j: Judge<T>) returns (b: seq<T>)
    requires Monotone(j) && !Settled(items, codes, j)
    ensures multiset(b) == multiset(items) && multiset(Sift(items, codes, j).kept) != multiset(Sift(b, codes, j).kept)
  {
    var x :| x in items && j.drops(x, Gathered(items, codes, j)) && !j.drops(x, codes);
    var i :| 0 <= i < |items| && items[i] == x;
    var early, late := UnsettledOrders(items, codes, j, i);
    var s, p, q := Sift(items, codes, j), Sift(early, codes, j), Sift(late, codes, j);
    assert x in multiset(p.kept) && x !in multiset(q.kept);
    b := if multiset(s.kept) == multiset(p.kept) then late else early;
  }
}
