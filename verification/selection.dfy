/** Picking the items of a list that meet a condition, each as often and in order. */
module Selection {
  import opened Permutations

  /** The indices of the items to keep, all of them and in increasing order. */
  ghost predicate Picks<T>(idx: seq<int>, items: seq<T>, keep: T -> bool) {
    && (forall k :: 0 <= k < |idx| ==> 0 <= idx[k] < |items| && keep(items[idx[k]]))
    && (forall j, k :: 0 <= j < k < |idx| ==> idx[j] < idx[k])
    && (forall i :: 0 <= i < |items| && keep(items[i]) ==> i in idx)
  }

  ghost predicate At<T>(picked: seq<T>, idx: seq<int>, items: seq<T>) {
    |picked| == |idx| && forall k :: 0 <= k < |idx| ==> 0 <= idx[k] < |items| && picked[k] == items[idx[k]]
  }

  /** `picked` is `items` without those that `keep` rejects. */
  ghost predicate IsSelection<T>(picked: seq<T>, items: seq<T>, keep: T -> bool) {
    exists idx :: Picks(idx, items, keep) && At(picked, idx, items)
  }

  lemma NothingToSelect<T>(keep: T -> bool)
    ensures IsSelection([], [], keep)
  {
    var none: seq<T>, idx: seq<int> := [], [];
    assert Picks(idx, none, keep) && At(none, idx, none);
  }

  lemma PicksKept<T>(idx: seq<int>, items: seq<T>, x: T, keep: T -> bool)
    requires Picks(idx, items, keep) && keep(x)
    ensures Picks(idx + [|items|], items + [x], keep)
  {
    var next: seq<int> := idx + [|items|];
    forall i | 0 <= i < |items| + 1 && keep((items + [x])[i])
      ensures i in next
    {
      if i < |items| {
        assert i in idx;
        var k :| 0 <= k < |idx| && idx[k] == i;
        assert next[k] == i;
      } else {
        assert next[|idx|] == i;
      }
    }
  }

  lemma SelectKept<T>(picked: seq<T>, items: seq<T>, x: T, keep: T -> bool)
    requires IsSelection(picked, items, keep) && keep(x)
    ensures IsSelection(picked + [x], items + [x], keep)
  {
    var idx: seq<int> :| Picks(idx, items, keep) && At(picked, idx, items);
    PicksKept(idx, items, x, keep);
    assert At(picked + [x], idx + [|items|], items + [x]);
  }

  lemma SelectRejected<T>(picked: seq<T>, items: seq<T>, x: T, keep: T -> bool)
    requires IsSelection(picked, items, keep) && !keep(x)
    ensures IsSelection(picked, items + [x], keep)
  {
    var idx :| Picks(idx, items, keep) && At(picked, idx, items);
    assert Picks(idx, items + [x], keep);
    assert At(picked, idx, items + [x]);
  }

  /** One more item. */
  lemma SelectNext<T>(picked: seq<T>, items: seq<T>, x: T, keep: T -> bool)
    requires IsSelection(picked, items, keep)
    ensures IsSelection(picked + if keep(x) then [x] else [], items + [x], keep)
  {
    if keep(x) {
      SelectKept(picked, items, x, keep);
    } else {
      SelectRejected(picked, items, x, keep);
      assert picked + [] == picked;
    }
  }

  /** A selection has exactly the members of the list that meet the condition. */
  lemma SelectionMembers<T>(picked: seq<T>, items: seq<T>, keep: T -> bool)
    requires IsSelection(picked, items, keep)
    ensures forall x :: x in picked <==> x in items && keep(x)
  {
    var idx :| Picks(idx, items, keep) && At(picked, idx, items);
    forall x | x in items && keep(x)
      ensures x in picked
    {
      var i :| 0 <= i < |items| && items[i] == x;
      assert i in idx;
      var k :| 0 <= k < |idx| && idx[k] == i;
      assert picked[k] == x;
    }
    forall x | x in picked
      ensures x in items && keep(x)
    {
      var k :| 0 <= k < |picked| && picked[k] == x;
      assert items[idx[k]] == x;
    }
  }

  /** An item to keep that stands before a picked one was picked before it. */
  lemma EarlierPicked<T>(picked: seq<T>, idx: seq<int>, items: seq<T>, keep: T -> bool, k: nat, j: nat)
    requires Picks(idx, items, keep) && At(picked, idx, items)
    requires k < |idx| && j < idx[k] && keep(items[j])
    ensures exists m :: 0 <= m < k && picked[m] == items[j]
  {
    assert j in idx;
    var m :| 0 <= m < |idx| && idx[m] == j;
    assert 0 <= m < k && picked[m] == items[j];
  }

  /** The first item with the property is at index `i`. */
  ghost predicate FirstAt<T>(items: seq<T>, property: T -> bool, i: nat) {
    i < |items| && property(items[i]) && forall j :: 0 <= j < i ==> !property(items[j])
  }

  /** The first picked item with a property is the first of all items to keep that have it. */
  lemma FirstOfPicked<T>(picked: seq<T>, items: seq<T>, keep: T -> bool, property: T -> bool, k: nat) returns (i: nat)
    requires IsSelection(picked, items, keep) && FirstAt(picked, property, k)
    ensures i < |items| && items[i] == picked[k] && keep(picked[k]) && property(picked[k])
    ensures forall j :: 0 <= j < i ==> !(keep(items[j]) && property(items[j]))
  {
    var idx: seq<int> :| Picks(idx, items, keep) && At(picked, idx, items);
    assert keep(items[idx[k]]) && picked[k] == items[idx[k]];
    hide Picks, At;
    i := idx[k];
    forall j | 0 <= j < i && keep(items[j])
      ensures !property(items[j])
    {
      EarlierPicked(picked, idx, items, keep, k, j);
      var m :| 0 <= m < k && picked[m] == items[j];
    }
  }

  /** `result` holds the image under `f` of every item that `keep` accepts, in order. */
  ghost predicate IsImage<A(!new), B>(result: seq<B>, items: seq<A>, keep: A -> bool, f: A -> B) {
    exists picked :: IsSelection(picked, items, keep) && result == Map(picked, f)
  }

  lemma EmptyImage<A(!new), B>(keep: A -> bool, f: A -> B)
    ensures IsImage([], [], keep, f)
  {
    NothingToSelect(keep);
    var none: seq<A> := [];
    assert IsSelection(none, [], keep) && Map(none, f) == [];
  }

  lemma ImageNext<A(!new), B>(result: seq<B>, items: seq<A>, x: A, keep: A -> bool, f: A -> B)
    requires IsImage(result, items, keep, f)
    ensures IsImage(result + if keep(x) then [f(x)] else [], items + [x], keep, f)
  {
    var picked :| IsSelection(picked, items, keep) && result == Map(picked, f);
    SelectNext(picked, items, x, keep);
    if keep(x) {
      assert Map(picked + [x], f) == Map(picked, f) + [f(x)];
    } else {
      assert picked + [] == picked && result + [] == result;
    }
  }
}
