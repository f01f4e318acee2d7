/**
  The correlator ranges over a map of surfaces, whose iteration order is arbitrary.
  No order changes the multiset of compounds, nor what they were built from.
*/
module CorrelationOrder {
  import opened Findings
  import opened CorrelationRules
  import opened SeverityEscalation
  import opened Correlator
  import opened Permutations

  /** The sum of `g` over a list of keys. */
  ghost function Tally<T>(order: seq<string>, g: string -> multiset<T>): multiset<T> {
    if order == [] then multiset{} else Tally(order[..|order| - 1], g) + g(order[|order| - 1])
  }

  lemma {:induction false} TallyWithout<T>(order: seq<string>, g: string -> multiset<T>, i: nat)
    requires i < |order|
    ensures Tally(order, g) == Tally(Without(order, i), g) + g(order[i])
    decreases |order|
  {
    var n := |order| - 1;
    if i < n {
      TallyWithout(order[..n], g, i);
      assert Without(order, i)[..n - 1] == Without(order[..n], i);
    } else {
      assert Without(order, i) == order[..n];
    }
  }

  lemma RemoveOne(order: seq<string>, i: nat, keys: set<string>)
    requires i < |order| && VisitsEach(order, keys)
    ensures VisitsEach(Without(order, i), keys - {order[i]})
  {
    var rest := Without(order, i);
    forall k
      ensures k in rest <==> k in keys - {order[i]}
    {
      if k in keys && k != order[i] {
        var j :| 0 <= j < |order| && order[j] == k;
        assert rest[if j < i then j else j - 1] == k;
      }
      if k in rest {
        var j :| 0 <= j < |rest| && rest[j] == k;
        assert order[if j < i then j else j + 1] == k;
      }
    }
  }

  lemma HasElement<T>(s: seq<T>)
    requires s != []
    ensures exists k :: k in s
  {
    assert s[0] in s;
  }

  lemma {:induction false} TallyOrder<T>(o1: seq<string>, o2: seq<string>, keys: set<string>, g: string -> multiset<T>)
    requires VisitsEach(o1, keys) && VisitsEach(o2, keys)
    ensures Tally(o1, g) == Tally(o2, g)
    decreases |o1|
  {
    if o1 == [] {
      if o2 != [] {
        HasElement(o2);
      }
    } else {
      var n := |o1| - 1;
      assert o1[n] in o1;
      var i :| 0 <= i < |o2| && o2[i] == o1[n];
      TallyWithout(o2, g, i);
      RemoveOne(o1, n, keys);
      RemoveOne(o2, i, keys);
      assert Without(o1, n) == o1[..n];
      TallyOrder(o1[..n], Without(o2, i), keys - {o1[n]}, g);
    }
  }

  lemma {:induction false} BuiltIsTallied(rules: seq<Rule>, fs: seq<Finding>, order: seq<string>)
    ensures multiset(BuiltInOrder(rules, fs, order)) == Tally(order, k => multiset(SurfaceBuilt(rules, fs, k)))
  {
    if order == [] {
    } else {
      BuiltIsTallied(rules, fs, order[..|order| - 1]);
    }
  }

  /** Whatever order the surfaces are visited in, the same compounds are built from the same findings. */
  lemma {:induction false} BuiltIsOrderIndependent(rules: seq<Rule>, fs: seq<Finding>, o1: seq<string>, o2: seq<string>)
    requires VisitsEach(o1, SurfaceKeys(fs)) && VisitsEach(o2, SurfaceKeys(fs))
    ensures multiset(BuiltInOrder(rules, fs, o1)) == multiset(BuiltInOrder(rules, fs, o2))
  {
    BuiltIsTallied(rules, fs, o1);
    BuiltIsTallied(rules, fs, o2);
    TallyOrder(o1, o2, SurfaceKeys(fs), k => multiset(SurfaceBuilt(rules, fs, k)));
  }

  /** `Correlate` returns the same multiset of compounds for every iteration order. */
  lemma {:induction false} CorrelateIsOrderIndependent(rules: seq<Rule>, fs: seq<Finding>, o1: seq<string>, o2: seq<string>)
    requires VisitsEach(o1, SurfaceKeys(fs)) && VisitsEach(o2, SurfaceKeys(fs))
    ensures multiset(Compounds(BuiltInOrder(rules, fs, o1))) == multiset(Compounds(BuiltInOrder(rules, fs, o2)))
  {
    var b1, b2 := BuiltInOrder(rules, fs, o1), BuiltInOrder(rules, fs, o2);
    var compound := (b: Built) => b.compound;
    BuiltIsOrderIndependent(rules, fs, o1, o2);
    MapOfSame(b1, b2, compound);
    assert Compounds(b1) == Map(b1, compound) && Compounds(b2) == Map(b2, compound);
  }
}
