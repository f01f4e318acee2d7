/**
  Searching a tree of wrapped and joined errors for a failed checker with an explicit
  worklist, and what that search finds in the errors a scan returns.
*/
module ErrorTree {
  import opened Wrappers
  import opened BatchProtocol

  /** Errors by how they unwrap: not at all, to one error, or (errors.Join) to several. */
  datatype Err =
    | Plain(message: string)
    | CheckerFailed(name: string, cause: Err)
    | Wrapped(cause: Err)
    | Joined(errs: seq<Err>)

  /** errors.AsType[*CheckerFailedError]: the first failed checker in depth-first order. */
  function FirstChecker(e: Err): Option<string>
    decreases e, 1
  {
    match e
    case Plain(_) => None
    case CheckerFailed(name, _) => Some(name)
    case Wrapped(cause) => FirstChecker(cause)
    case Joined(errs) => FirstCheckerIn(errs)
  }

  function FirstCheckerIn(errs: seq<Err>): Option<string>
    decreases errs, 0
  {
    if errs == [] then None
    else match FirstChecker(errs[0])
         case Some(name) => Some(name)
         case None => FirstCheckerIn(errs[1..])
  }

  /** The search, by recursion over join nodes. */
  predicate Finds(e: Err, name: string) {
    FirstChecker(e) == Some(name) || (e.Joined? && exists x :: x in e.errs && Finds(x, name))
  }

  /** The names of all failed checkers anywhere in the tree. */
  function Names(e: Err): set<string> {
    match e
    case Plain(_) => {}
    case CheckerFailed(name, cause) => {name} + Names(cause)
    case Wrapped(cause) => Names(cause)
    case Joined(errs) => set x, n | x in errs && n in Names(x) :: n
  }

  // ---------- The worklist ----------

  function Size(e: Err): nat
    decreases e, 1
  {
    match e
    case Plain(_) => 1
    case CheckerFailed(_, cause) => 1 + Size(cause)
    case Wrapped(cause) => 1 + Size(cause)
    case Joined(errs) => 1 + SizeAll(errs)
  }

  function SizeAll(errs: seq<Err>): nat
    decreases errs, 0
  {
    if errs == [] then 0 else Size(errs[0]) + SizeAll(errs[1..])
  }

  lemma {:induction false} SizeConcat(a: seq<Err>, b: seq<Err>)
    ensures SizeAll(a + b) == SizeAll(a) + SizeAll(b)
  {
    if a == [] {
      assert a + b == b;
    } else {
      assert (a + b)[1..] == a[1..] + b;
      SizeConcat(a[1..], b);
    }
  }

  predicate FindsIn(errs: seq<Err>, name: string) {
    exists x :: x in errs && Finds(x, name)
  }

  lemma FindsInConcat(a: seq<Err>, b: seq<Err>, name: string)
    ensures FindsIn(a + b, name) <==> FindsIn(a, name) || FindsIn(b, name)
  {
    assert forall x :: x in a + b <==> x in a || x in b;
  }

  /** `scanErrorContainsChecker`; a nil error is None. */
  method ScanErrorContainsChecker(err: Option<Err>, name: string) returns (found: bool)
    ensures found <==> err.Some? && Finds(err.value, name)
  {
    if err.None? {
      return false;
    }
    var pending := [err.value];
    while |pending| > 0
      invariant Finds(err.value, name) <==> FindsIn(pending, name)
      decreases SizeAll(pending)
    {
      var last := |pending| - 1;
      var current, rest := pending[last], pending[..last];
      assert pending == rest + [current];
      SizeConcat(rest, [current]);
      FindsInConcat(rest, [current], name);
      assert [current][1..] == [];
      assert current in [current] && (FindsIn([current], name) <==> Finds(current, name));
      pending := rest;
      var failed := FirstChecker(current);
      if failed == Some(name) {
        assert Finds(current, name);
        return true;
      }
      if current.Joined? {
        assert Finds(current, name) <==> FindsIn(current.errs, name);
        SizeConcat(rest, current.errs);
        FindsInConcat(rest, current.errs, name);
        pending := pending + current.errs;
      }
    }
    found := false;
  }

  // ---------- What the search finds ----------

  lemma {:induction false} FirstCheckerIsNamed(e: Err)
    ensures FirstChecker(e).Some? ==> FirstChecker(e).value in Names(e)
    ensures FirstChecker(e).None? ==> Names(e) == {}
    decreases e, 1
  {
    match e
    case Plain(_) =>
    case CheckerFailed(_, _) =>
    case Wrapped(cause) => FirstCheckerIsNamed(cause);
    case Joined(errs) => FirstCheckerInIsNamed(errs);
  }

  lemma {:induction false} FirstCheckerInIsNamed(errs: seq<Err>)
    ensures FirstCheckerIn(errs).Some? ==> exists x :: x in errs && FirstCheckerIn(errs).value in Names(x)
    ensures FirstCheckerIn(errs).None? ==> forall x :: x in errs ==> Names(x) == {}
    decreases errs, 0
  {
    if errs == [] {
    } else {
      FirstCheckerIsNamed(errs[0]);
      FirstCheckerInIsNamed(errs[1..]);
    }
  }

  /** A found name is the name of a failed checker somewhere in the tree. */
  lemma {:induction false} SearchIsSound(e: Err, name: string)
    requires Finds(e, name)
    ensures name in Names(e)
  {
    FirstCheckerIsNamed(e);
    if FirstChecker(e) != Some(name) {
      var x :| x in e.errs && Finds(x, name);
      SearchIsSound(x, name);
    }
  }

  /** The errors that a tree of joins holds together, none of them a join. */
  function Branches(e: Err): set<Err> {
    if e.Joined? then set x, y | x in e.errs && y in Branches(x) :: y else {e}
  }

  /** Some branch has a failed checker with this name as its first. */
  predicate FirstInSomeBranch(e: Err, name: string) {
    exists y :: y in Branches(e) && FirstChecker(y) == Some(name)
  }

  /** Some branch bears this name, first or not. */
  predicate BorneBySomeBranch(e: Err, name: string) {
    exists y :: y in Branches(e) && name in Names(y)
  }

  lemma {:induction false} FirstCheckerOfSome(errs: seq<Err>)
    requires FirstCheckerIn(errs).Some?
    ensures exists x :: x in errs && FirstChecker(x) == FirstCheckerIn(errs)
    decreases errs
  {
    if FirstChecker(errs[0]).Some? {
      assert errs[0] in errs;
    } else {
      FirstCheckerOfSome(errs[1..]);
    }
  }

  /** The search finds the first failed checker of every branch, and nothing else. */
  lemma {:induction false} FindsInBranches(e: Err, name: string)
    ensures Finds(e, name) <==> FirstInSomeBranch(e, name)
  {
    if !e.Joined? {
      assert e in Branches(e);
    } else {
      forall x | x in e.errs
        ensures Finds(x, name) <==> FirstInSomeBranch(x, name)
      {
        FindsInBranches(x, name);
      }
      if FirstChecker(e) == Some(name) {
        FirstCheckerOfSome(e.errs);
        var x :| x in e.errs && FirstChecker(x) == Some(name);
        assert Finds(x, name);
      }
    }
  }

  lemma {:induction false} NamesInBranches(e: Err, name: string)
    ensures name in Names(e) <==> BorneBySomeBranch(e, name)
  {
    if !e.Joined? {
      assert e in Branches(e);
    } else {
      forall x | x in e.errs
        ensures name in Names(x) <==> BorneBySomeBranch(x, name)
      {
        NamesInBranches(x, name);
      }
    }
  }

  /** The search misses no name in the tree. */
  predicate FindsAll(e: Err) {
    forall name :: name in Names(e) ==> Finds(e, name)
  }

  /**
    However deeply errors are joined, the search finds every name in the tree if and
    only if every name that some branch bears is the first failed checker of a branch.
  */
  lemma {:induction false} SearchCompleteIff(e: Err)
    ensures FindsAll(e) <==> forall y :: y in Branches(e) ==> forall name :: name in Names(y) ==> FirstInSomeBranch(e, name)
  {
    if FindsAll(e) {
      forall y, name | y in Branches(e) && name in Names(y)
        ensures FirstInSomeBranch(e, name)
      {
        NamesInBranches(e, name);
        FindsInBranches(e, name);
      }
    } else {
      var name :| name in Names(e) && !Finds(e, name);
      NamesInBranches(e, name);
      FindsInBranches(e, name);
      var y :| y in Branches(e) && name in Names(y);
    }
  }

  /**
    Outside join nodes the search sees only the first failed checker: it finds every
    name in the tree if and only if the tree does not hold two different ones.
  */
  lemma {:induction false} UnjoinedSearchCompleteIff(e: Err)
    requires !e.Joined?
    ensures FindsAll(e) <==> forall m, n :: m in Names(e) && n in Names(e) ==> m == n
  {
    SearchCompleteIff(e);
    FirstCheckerIsNamed(e);
  }

  /** No branch holds two different names. */
  predicate OneNamePerBranch(e: Err) {
    forall y :: y in Branches(e) ==> forall m, n :: m in Names(y) && n in Names(y) ==> m == n
  }

  /** In particular the search finds every name when no branch hides a second one. */
  lemma {:induction false} SearchComplete(e: Err, name: string)
    requires OneNamePerBranch(e) && name in Names(e)
    ensures Finds(e, name)
  {
    NamesInBranches(e, name);
    var y :| y in Branches(e) && name in Names(y);
    FirstCheckerIsNamed(y);
    FindsInBranches(e, name);
  }

  /** A join hidden behind a wrapping error is searched no further than its first failed checker. */
  lemma WrappedJoinIsMissed(a: string, b: string, cause: Err)
    requires a != b
    ensures b in Names(Wrapped(Joined([CheckerFailed(a, cause), CheckerFailed(b, cause)])))
    ensures !Finds(Wrapped(Joined([CheckerFailed(a, cause), CheckerFailed(b, cause)])), b)
  {
    var errs := [CheckerFailed(a, cause), CheckerFailed(b, cause)];
    assert errs[1] in errs && b in Names(errs[1]);
    assert FirstChecker(errs[0]) == Some(a);
    assert FirstChecker(Joined(errs)) == Some(a);
  }

  // ---------- The errors of a scan ----------

  /** errors.Join of one CheckerFailedError for each name and cause. */
  function JoinedCheckers(names: seq<string>, causes: seq<Err>): Err
    requires |names| == |causes|
  {
    Joined(seq(|names|, k requires 0 <= k < |names| => CheckerFailed(names[k], causes[k])))
  }

  function FailedName(names: seq<string>, failures: seq<(nat, string)>, k: nat): string
    requires k < |failures| && forall f :: f in failures ==> f.0 < |names|
  {
    names[failures[k].0]
  }

  /** What `Scan` returns for its failed checkers, given the checkers' names and the failed slots. */
  function ScanError(names: seq<string>, failures: seq<(nat, string)>): Option<Err>
    requires forall f :: f in failures ==> f.0 < |names|
  {
    if failures == [] then None
    else Some(JoinedCheckers(
      seq(|failures|, k requires 0 <= k < |failures| => FailedName(names, failures, k)),
      seq(|failures|, k requires 0 <= k < |failures| => Plain(failures[k].1))))
  }

  /**
    On a joined error of failed checkers the search is exact, whatever the causes
    wrap: it is true iff one of them bears the name.
  */
  lemma SearchOfJoinedCheckers(names: seq<string>, causes: seq<Err>, name: string)
    requires |names| == |causes|
    ensures Finds(JoinedCheckers(names, causes), name) <==> name in names
  {
    var e := JoinedCheckers(names, causes);
    var errs := e.errs;
    assert FirstChecker(e) == FirstCheckerIn(errs);
    assert Finds(e, name) <==> FirstChecker(e) == Some(name) || FindsIn(errs, name);
    if name in names {
      var k :| 0 <= k < |names| && names[k] == name;
      assert errs[k] in errs && Finds(errs[k], name);
    }
    if errs != [] {
      assert FirstChecker(errs[0]) == Some(names[0]);
      assert FirstCheckerIn(errs) == Some(names[0]) && names[0] in names;
    }
    forall x | x in errs && Finds(x, name)
      ensures name in names
    {
      var k :| 0 <= k < |errs| && errs[k] == x;
      assert FirstChecker(x) == Some(names[k]);
    }
  }

  /** The error made of the failed slots is recognised as a failure of the named checker iff its slot failed. */
  lemma {:induction false} FailedSlotsRecognised<F>(names: seq<string>, results: seq<TaskResult<F>>, name: string)
    requires |names| == |results|
    ensures forall f :: f in Failures(results) ==> f.0 < |names|
    ensures var e := ScanError(names, Failures(results));
      (e.Some? && Finds(e.value, name)) <==> exists i :: 0 <= i < |results| && names[i] == name && results[i].err.Some?
  {
    FailuresExact(results);
    var failures := Failures(results);
    var failed := seq(|failures|, k requires 0 <= k < |failures| => FailedName(names, failures, k));
    var causes := seq(|failures|, k requires 0 <= k < |failures| => Plain(failures[k].1));
    SearchOfJoinedCheckers(failed, causes, name);
    assert failures != [] ==> ScanError(names, failures) == Some(JoinedCheckers(failed, causes));
    if name in failed {
      var k :| 0 <= k < |failed| && failed[k] == name;
      assert FailedName(names, failures, k) == name;
    }
    if i :| 0 <= i < |results| && names[i] == name && results[i].err.Some? {
      assert (i, results[i].err.value) in failures;
      var k :| 0 <= k < |failures| && failures[k] == (i, results[i].err.value);
      assert failed[k] == name;
    }
    if k :| 0 <= k < |failures| && FailedName(names, failures, k) == name {
      assert failures[k] in failures;
    }
  }

  /**
    After every run of the checkers, cancelled or not, the scan's error is recognised as
    a failure of the named checker iff that checker's slot holds an error.
  */
  lemma {:induction false} ScanFailureRecognised<F>(names: seq<string>, run: seq<Step<F>>, t: State<F>, name: string)
    requires Reaches(ScannerConfig(|names|), run, t)
    ensures |Results(t)| == |names|
    ensures forall f :: f in Failures(Results(t)) ==> f.0 < |names|
    ensures var e := ScanError(names, Failures(Results(t)));
      (e.Some? && Finds(e.value, name)) <==> exists i :: 0 <= i < |names| && names[i] == name && Results(t)[i].err.Some?
  {
    FailedSlotsRecognised(names, Results(t), name);
  }
}
