/**
  The edit distance used by the typosquatting check (`levenshtein`): a two-row
  dynamic programme whose rows are swapped after every outer iteration, proved
  to return the length of a shortest script of single-byte edits.
*/
module EditDistance {
  import opened Wrappers
  import opened Text

  // ---------- Edit scripts: the meaning of the distance ----------

  /** One edit of a byte string; every edit costs one. */
  datatype Edit = Insert(at: nat, c: Byte) | Delete(at: nat) | Substitute(at: nat, c: Byte)

  function ApplyEdit(s: Bytes, e: Edit): Option<Bytes> {
    match e
    case Insert(at, c) => if at <= |s| then Some(s[..at] + [c] + s[at..]) else None
    case Delete(at) => if at < |s| then Some(s[..at] + s[at + 1..]) else None
    case Substitute(at, c) => if at < |s| then Some(s[..at] + [c] + s[at + 1..]) else None
  }

  /** Runs the edits one after the other; None when some edit is out of range. */
  function Run(s: Bytes, script: seq<Edit>): Option<Bytes>
    decreases script
  {
    if script == [] then Some(s)
    else match ApplyEdit(s, script[0])
         case None => None
         case Some(t) => Run(t, script[1..])
  }

  predicate Turns(a: Bytes, script: seq<Edit>, b: Bytes) {
    Run(a, script) == Some(b)
  }

  // ---------- The recurrence ----------

  function Min3(x: int, y: int, z: int): int {
    var m := if x <= y then x else y;
    if m <= z then m else z
  }

  function Cost(x: Byte, y: Byte): nat {
    if x == y then 0 else 1
  }

  function Front(s: Bytes): Bytes
    requires s != []
  {
    s[..|s| - 1]
  }

  function Last(s: Bytes): Byte
    requires s != []
  {
    s[|s| - 1]
  }

  function Dist(a: Bytes, b: Bytes): nat
    decreases |a| + |b|
  {
    if a == [] then |b|
    else if b == [] then |a|
    else Min3(Dist(Front(a), b) + 1, Dist(a, Front(b)) + 1, Dist(Front(a), Front(b)) + Cost(Last(a), Last(b)))
  }

  lemma PrefixFront(a: Bytes, i: nat)
    requires 1 <= i <= |a|
    ensures a[..i] != [] && Front(a[..i]) == a[..i - 1] && Last(a[..i]) == a[i - 1]
  {
  }

  /** The recurrence read on prefixes, as the table cells are: a cell from its three neighbours. */
  lemma {:induction false} DistOfPrefixes(a: Bytes, b: Bytes, i: nat, j: nat, cell: nat, up: nat, left: nat, diagonal: nat)
    requires 1 <= i <= |a| && 1 <= j <= |b|
    requires cell == Dist(a[..i], b[..j])
    requires up == Dist(a[..i - 1], b[..j]) && left == Dist(a[..i], b[..j - 1]) && diagonal == Dist(a[..i - 1], b[..j - 1])
    ensures cell == Min3(up + 1, left + 1, diagonal + Cost(a[i - 1], b[j - 1]))
  {
    PrefixFront(a, i);
    PrefixFront(b, j);
  }

  // ---------- Metric laws ----------

  lemma {:induction false} DistBounds(a: Bytes, b: Bytes)
    ensures |a| - |b| <= Dist(a, b) && |b| - |a| <= Dist(a, b)
    ensures Dist(a, b) <= |a| || Dist(a, b) <= |b|
    decreases |a| + |b|
  {
    if a == [] || b == [] {
    } else {
      DistBounds(Front(a), b);
      DistBounds(a, Front(b));
      DistBounds(Front(a), Front(b));
    }
  }

  lemma {:induction false} DistSymmetric(a: Bytes, b: Bytes)
    ensures Dist(a, b) == Dist(b, a)
    decreases |a| + |b|
  {
    if a == [] || b == [] {
    } else {
      DistSymmetric(Front(a), b);
      DistSymmetric(a, Front(b));
      DistSymmetric(Front(a), Front(b));
    }
  }

  lemma {:induction false} DistZero(a: Bytes, b: Bytes)
    ensures Dist(a, b) == 0 <==> a == b
    decreases |a| + |b|
  {
    if a == [] || b == [] {
    } else {
      assert a == Front(a) + [Last(a)] && b == Front(b) + [Last(b)];
      DistZero(Front(a), Front(b));
    }
  }

  lemma {:induction false} DistTriangle(a: Bytes, b: Bytes, c: Bytes)
    ensures Dist(a, c) <= Dist(a, b) + Dist(b, c)
    decreases |a| + |b| + |c|
  {
    if a == [] {
      DistBounds(b, c);
    } else if c == [] {
      DistBounds(a, b);
    } else if b == [] {
      DistBounds(a, c);
    } else {
      DistTriangle(Front(a), b, c);
      DistTriangle(a, b, Front(c));
      DistTriangle(a, Front(b), Front(c));
      DistTriangle(Front(a), Front(b), c);
      DistTriangle(a, Front(b), c);
      DistTriangle(Front(a), Front(b), Front(c));
    }
  }

  // ---------- The recurrence is the length of a shortest script ----------

  /** A common tail costs nothing. */
  lemma {:induction false} DistCommonTail(x: Bytes, y: Bytes, tail: Bytes)
    ensures Dist(x + tail, y + tail) <= Dist(x, y)
  {
    if tail == [] {
      assert x + tail == x && y + tail == y;
    } else {
      assert Front(x + tail) == x + Front(tail) && Front(y + tail) == y + Front(tail);
      DistCommonTail(x, y, Front(tail));
    }
  }

  lemma {:induction false} OneEditIsNear(s: Bytes, e: Edit)
    requires ApplyEdit(s, e).Some?
    ensures Dist(s, ApplyEdit(s, e).value) <= 1
  {
    var p := s[..e.at];
    var x := if e.Insert? then p else p + [s[e.at]];
    var y := if e.Delete? then p else p + [e.c];
    var tail := if e.Insert? then s[e.at..] else s[e.at + 1..];
    assert s == x + tail && ApplyEdit(s, e).value == y + tail;
    DistCommonTail(x, y, tail);
    DistZero(p, p);
    assert x != p ==> Front(x) == p;
    assert y != p ==> Front(y) == p;
  }

  /** No script is shorter than the distance. */
  lemma {:induction false} EveryScriptIsAtLeastDist(a: Bytes, script: seq<Edit>, b: Bytes)
    requires Turns(a, script, b)
    ensures Dist(a, b) <= |script|
    decreases script
  {
    if script == [] {
      DistZero(a, b);
    } else {
      var next := ApplyEdit(a, script[0]).value;
      OneEditIsNear(a, script[0]);
      EveryScriptIsAtLeastDist(next, script[1..], b);
      DistTriangle(a, next, b);
    }
  }

  lemma {:induction false} RunThen(a: Bytes, s: seq<Edit>, b: Bytes, t: seq<Edit>)
    requires Turns(a, s, b)
    ensures Run(a, s + t) == Run(b, t)
    decreases s
  {
    if s == [] {
      assert s + t == t;
    } else {
      assert (s + t)[0] == s[0] && (s + t)[1..] == s[1..] + t;
      RunThen(ApplyEdit(a, s[0]).value, s[1..], b, t);
    }
  }

  /** A script for a prefix does not disturb the byte behind it. */
  lemma {:induction false} RunUnderTail(a: Bytes, s: seq<Edit>, b: Bytes, c: Byte)
    requires Turns(a, s, b)
    ensures Turns(a + [c], s, b + [c])
    decreases s
  {
    if s == [] {
    } else {
      var next := ApplyEdit(a, s[0]).value;
      assert ApplyEdit(a + [c], s[0]).value == next + [c];
      RunUnderTail(next, s[1..], b, c);
    }
  }

  lemma DeleteThen(a: Bytes, rest: seq<Edit>, b: Bytes)
    requires a != [] && Turns(Front(a), rest, b)
    ensures Turns(a, [Delete(|a| - 1)] + rest, b)
  {
    var s := [Delete(|a| - 1)] + rest;
    assert ApplyEdit(a, s[0]).value == Front(a);
    assert s[1..] == rest;
  }

  lemma ThenInsert(a: Bytes, rest: seq<Edit>, b: Bytes)
    requires b != [] && Turns(a, rest, Front(b))
    ensures Turns(a, rest + [Insert(|b| - 1, Last(b))], b)
  {
    var last := Insert(|b| - 1, Last(b));
    RunThen(a, rest, Front(b), [last]);
    assert ApplyEdit(Front(b), last).value == b;
    assert Run(b, [last][1..]) == Some(b);
  }

  lemma KeepLast(a: Bytes, rest: seq<Edit>, b: Bytes)
    requires a != [] && b != [] && Turns(Front(a), rest, Front(b))
    ensures Turns(Front(a) + [Last(b)], rest, b)
  {
    RunUnderTail(Front(a), rest, Front(b), Last(b));
    assert b == Front(b) + [Last(b)];
  }

  lemma SubstituteThen(a: Bytes, rest: seq<Edit>, b: Bytes)
    requires a != [] && b != [] && Turns(Front(a), rest, Front(b))
    ensures Turns(a, [Substitute(|a| - 1, Last(b))] + rest, b)
  {
    var s := [Substitute(|a| - 1, Last(b))] + rest;
    KeepLast(a, rest, b);
    assert ApplyEdit(a, s[0]).value == Front(a) + [Last(b)];
    assert s[1..] == rest;
  }

  /** A script as short as the distance exists. */
  lemma {:induction false} ShortestScript(a: Bytes, b: Bytes) returns (s: seq<Edit>)
    ensures Turns(a, s, b) && |s| == Dist(a, b)
    decreases |a| + |b|
  {
    if a == [] && b == [] {
      s := [];
    } else if b == [] || (a != [] && Dist(a, b) == Dist(Front(a), b) + 1) {
      var rest := ShortestScript(Front(a), b);
      DeleteThen(a, rest, b);
      s := [Delete(|a| - 1)] + rest;
    } else if a == [] || Dist(a, b) == Dist(a, Front(b)) + 1 {
      var rest := ShortestScript(a, Front(b));
      ThenInsert(a, rest, b);
      s := rest + [Insert(|b| - 1, Last(b))];
    } else {
      var rest := ShortestScript(Front(a), Front(b));
      if Last(a) == Last(b) {
        KeepLast(a, rest, b);
        assert a == Front(a) + [Last(b)];
        s := rest;
      } else {
        SubstituteThen(a, rest, b);
        s := [Substitute(|a| - 1, Last(b))] + rest;
      }
    }
  }

  // ---------- The two rows ----------

  /** A table obeys the recurrence at one cell. */
  ghost predicate Cell(t: (nat, nat) -> int, a: Bytes, b: Bytes, i: nat, j: nat)
    requires i <= |a| && j <= |b|
  {
    t(i, j) == if i == 0 then j
               else if j == 0 then i
               else Min3(t(i - 1, j) + 1, t(i, j - 1) + 1, t(i - 1, j - 1) + Cost(a[i - 1], b[j - 1]))
  }

  ghost predicate IsTable(t: (nat, nat) -> int, a: Bytes, b: Bytes) {
    forall i: nat, j: nat {:trigger Cell(t, a, b, i, j)} :: i <= |a| && j <= |b| ==> Cell(t, a, b, i, j)
  }

  /** The distances between all prefixes of `a` and of `b`. */
  ghost function Distances(a: Bytes, b: Bytes): (nat, nat) -> int {
    (i: nat, j: nat) => if i <= |a| && j <= |b| then Dist(a[..i], b[..j]) else 0
  }

  lemma {:induction false} DistanceCell(a: Bytes, b: Bytes, i: nat, j: nat, t: (nat, nat) -> int)
    requires i <= |a| && j <= |b| && t == Distances(a, b)
    ensures Cell(t, a, b, i, j)
  {
    if i > 0 && j > 0 {
      DistOfPrefixes(a, b, i, j, t(i, j), t(i - 1, j), t(i, j - 1), t(i - 1, j - 1));
    }
  }

  lemma {:induction false} DistancesAreTable(a: Bytes, b: Bytes)
    ensures IsTable(Distances(a, b), a, b)
  {
    forall i: nat, j: nat | i <= |a| && j <= |b|
      ensures Cell(Distances(a, b), a, b, i, j)
    {
      DistanceCell(a, b, i, j, Distances(a, b));
    }
  }

  /** The first `n` cells of a row are those of row `i` of the table. */
  ghost predicate RowHolds(row: array<int>, t: (nat, nat) -> int, i: nat, n: nat)
    requires n <= row.Length
    reads row
  {
    forall k: nat :: k < n ==> row[k] == t(i, k)
  }

  /** One pass of the inner loop: row `i` of the table from row `i - 1`. */
  method FillRow(prev: array<int>, curr: array<int>, a: Bytes, i: nat, b: Bytes, ghost t: (nat, nat) -> int)
    requires prev != curr && prev.Length == curr.Length == |b| + 1
    requires 1 <= i <= |a| && IsTable(t, a, b) && RowHolds(prev, t, i - 1, |b| + 1)
    modifies curr
    ensures RowHolds(curr, t, i, |b| + 1)
  {
    curr[0] := i;
    assert Cell(t, a, b, i, 0);
    for j := 1 to |b| + 1
      invariant RowHolds(prev, t, i - 1, |b| + 1)
      invariant RowHolds(curr, t, i, j)
    {
      var cost := 1;
      if a[i - 1] == b[j - 1] {
        cost := 0;
      }
      assert Cell(t, a, b, i, j);
      curr[j] := Min3(prev[j] + 1, curr[j - 1] + 1, prev[j - 1] + cost);
    }
  }

  method LevenshteinRows(a: Bytes, b: Bytes) returns (d: nat)
    ensures d == Dist(a, b)
  {
    if a == [] {
      return |b|;
    }
    if b == [] {
      return |a|;
    }
    ghost var t := Distances(a, b);
    DistancesAreTable(a, b);
    var prev := new int[|b| + 1];
    var curr := new int[|b| + 1];
    for j := 0 to |b| + 1
      invariant RowHolds(prev, t, 0, j)
    {
      assert Cell(t, a, b, 0, j);
      prev[j] := j;
    }
    for i := 1 to |a| + 1
      invariant prev != curr && prev.Length == curr.Length == |b| + 1
      invariant fresh(prev) && fresh(curr)
      invariant RowHolds(prev, t, i - 1, |b| + 1)
    {
      FillRow(prev, curr, a, i, b, t);
      prev, curr := curr, prev;
    }
    assert a[..|a|] == a && b[..|b|] == b;
    d := prev[|b|];
  }

  /** `levenshtein`: the length of a shortest edit script, for all byte strings. */
  method Levenshtein(a: Bytes, b: Bytes) returns (d: nat)
    ensures d == Dist(a, b)
    ensures exists s :: Turns(a, s, b) && |s| == d
    ensures forall s :: Turns(a, s, b) ==> d <= |s|
  {
    d := LevenshteinRows(a, b);
    ghost var best := ShortestScript(a, b);
    forall s | Turns(a, s, b) ensures d <= |s| {
      EveryScriptIsAtLeastDist(a, s, b);
    }
  }
}
