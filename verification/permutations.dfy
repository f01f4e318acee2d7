/** Lists with the same elements, each as often. */
module Permutations {
  lemma SameCounts<T>(p: multiset<T>, q: multiset<T>)
    requires forall x :: p[x] == q[x]
    ensures p == q
  {
  }

  lemma SameMembers<T>(a: seq<T>, b: seq<T>)
    requires multiset(a) == multiset(b)
    ensures forall x :: x in a <==> x in b
  {
    forall x ensures x in a <==> x in b {
      assert x in a <==> x in multiset(a);
      assert x in b <==> x in multiset(b);
    }
  }

  ghost function Without<T>(s: seq<T>, i: nat): seq<T>
    requires i < |s|
  {
    s[..i] + s[i + 1..]
  }

  ghost function Map<A, B>(s: seq<A>, f: A -> B): (r: seq<B>)
    ensures |r| == |s|
  {
    seq(|s|, i requires 0 <= i < |s| => f(s[i]))
  }

  lemma MapWithout<A, B>(s: seq<A>, f: A -> B, i: nat)
    requires i < |s|
    ensures multiset(s) == multiset(Without(s, i)) + multiset{s[i]}
    ensures multiset(Map(s, f)) == multiset(Map(Without(s, i), f)) + multiset{f(s[i])}
  {
    assert s == s[..i] + [s[i]] + s[i + 1..];
    var m := Map(s, f);
    assert m == m[..i] + [m[i]] + m[i + 1..];
    assert Map(Without(s, i), f) == m[..i] + m[i + 1..];
  }

  /** Mapping permuted lists gives permuted lists. */
  lemma {:induction false} MapOfSame<A, B>(a: seq<A>, b: seq<A>, f: A -> B)
    requires multiset(a) == multiset(b)
    ensures multiset(Map(a, f)) == multiset(Map(b, f))
    decreases |a|
  {
    if a == [] {
      assert |multiset(b)| == 0;
    } else {
      assert a[0] in multiset(b);
      var i :| 0 <= i < |b| && b[i] == a[0];
      MapWithout(a, f, 0);
      MapWithout(b, f, i);
      assert multiset(Without(a, 0)) == multiset(a) - multiset{a[0]} == multiset(Without(b, i));
      MapOfSame(Without(a, 0), Without(b, i), f);
    }
  }
}
