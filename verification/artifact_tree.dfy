/**
  What a bounded walk means: the entries of a directory tree, given only by the
  listing of each directory (so the tree may be infinite), the outcome of a
  stack-driven walk under a budget, and when that walk succeeds.
*/
module ArtifactTree {
  /** A path: the root followed by the entry names below it. */
  type Path = seq<string>

  datatype Entry = Entry(name: string, isDir: bool)
  datatype Action = Continue | SkipSubtree | Unrecognized
  datatype Visit = Visit(path: Path, entry: Entry)

  /** Why a walk failed. Go's nil error is the empty list; a joined error lists all its causes. */
  datatype Cause =
    | Cancelled | InvalidWalk | InvalidBudget | LimitExceeded | LstatFailed | OpenFailed | NilReader
    | ReadFailed | EmptyBatch | CloseFailed | VisitorFailed | InvalidAction
  type Error = seq<Cause>

  /** What a quiet host shows: the root, every directory's entries, and which entries the visitor skips. */
  datatype FileSystem = FileSystem(
    rootEntry: Entry,
    listing: Path -> seq<Entry>,
    skip: (Path, Entry) -> bool)

  function Items(dir: Path, entries: seq<Entry>): (items: seq<Visit>)
    ensures |items| == |entries|
  {
    if entries == [] then []
    else
      var e := entries[|entries| - 1];
      Items(dir, entries[..|entries| - 1]) + [Visit(dir + [e.name], e)]
  }

  predicate Descends(fs: FileSystem, path: Path, entry: Entry) {
    entry.isDir && !fs.skip(path, entry)
  }

  /** The subdirectories of `dir` that the walk enters, in listing order. */
  function Children(fs: FileSystem, dir: Path, entries: seq<Entry>): (children: seq<Path>)
    ensures |children| <= |entries|
  {
    if entries == [] then []
    else
      var e := entries[|entries| - 1];
      Children(fs, dir, entries[..|entries| - 1])
      + if Descends(fs, dir + [e.name], e) then [dir + [e.name]] else []
  }

  /** The entries a budget of `remaining` allows. */
  function Allowed(entries: seq<Entry>, remaining: nat): seq<Entry> {
    if |entries| <= remaining then entries else entries[..remaining]
  }

  /** What visiting `entries` leaves behind: all of them, or as many as the budget allows. */
  ghost predicate VisitedWithin(fs: FileSystem, dir: Path, entries: seq<Entry>, remaining: nat,
                                before: seq<Visit>, after: seq<Visit>, children: seq<Path>, err: Error)
  {
    && err == (if |entries| <= remaining then [] else [LimitExceeded])
    && after == before + Items(dir, Allowed(entries, remaining))
    && (err == [] ==> children == Children(fs, dir, entries))
  }

  /** The first `i` entries have been visited, and `found` are the directories to enter among them. */
  ghost predicate VisitedPart(fs: FileSystem, dir: Path, entries: seq<Entry>, i: nat,
                              before: seq<Visit>, after: seq<Visit>, found: seq<Path>)
  {
    && i <= |entries|
    && after == before + Items(dir, entries[..i])
    && found == Children(fs, dir, entries[..i])
  }

  lemma NothingVisited(fs: FileSystem, dir: Path, entries: seq<Entry>, visits: seq<Visit>)
    ensures VisitedPart(fs, dir, entries, 0, visits, visits, [])
  {
    assert entries[..0] == [];
  }

  lemma {:induction false} OneMoreEntry(fs: FileSystem, dir: Path, entries: seq<Entry>, i: nat,
                                        before: seq<Visit>, after: seq<Visit>, found: seq<Path>)
    requires i < |entries| && VisitedPart(fs, dir, entries, i, before, after, found)
    ensures var path := dir + [entries[i].name];
      VisitedPart(fs, dir, entries, i + 1, before, after + [Visit(path, entries[i])],
                  found + if Descends(fs, path, entries[i]) then [path] else [])
  {
    assert entries[..i + 1][..i] == entries[..i];
  }

  /** A visit ends with the entries or, with an error, with the budget. */
  lemma {:induction false} VisitEnds(fs: FileSystem, dir: Path, entries: seq<Entry>, i: nat, remaining: nat,
                                     before: seq<Visit>, after: seq<Visit>, found: seq<Path>, err: Error)
    requires VisitedPart(fs, dir, entries, i, before, after, found)
    requires if err == [] then i == |entries| <= remaining else err == [LimitExceeded] && i == remaining < |entries|
    ensures VisitedWithin(fs, dir, entries, remaining, before, after, found, err)
  {
    assert entries[..|entries|] == entries;
  }

  lemma {:induction false} ChildrenConcat(fs: FileSystem, dir: Path, a: seq<Entry>, b: seq<Entry>)
    ensures Children(fs, dir, a + b) == Children(fs, dir, a) + Children(fs, dir, b)
  {
    if b == [] {
      assert a + b == a;
    } else {
      assert (a + b)[..|a + b| - 1] == a + b[..|b| - 1];
      ChildrenConcat(fs, dir, a, b[..|b| - 1]);
    }
  }

  /** The first `k` entries of a directory have been read and visited. */
  ghost predicate ReadSoFar(fs: FileSystem, dir: Path, k: nat, before: seq<Visit>, after: seq<Visit>, children: seq<Path>) {
    VisitedPart(fs, dir, fs.listing(dir), k, before, after, children)
  }

  lemma {:induction false} ItemsConcat(dir: Path, a: seq<Entry>, b: seq<Entry>)
    ensures Items(dir, a + b) == Items(dir, a) + Items(dir, b)
  {
    if b == [] {
      assert a + b == a;
    } else {
      assert (a + b)[..|a + b| - 1] == a + b[..|b| - 1];
      ItemsConcat(dir, a, b[..|b| - 1]);
    }
  }

  lemma {:induction false} SplitItems(dir: Path, all: seq<Entry>, k: nat, n: nat, v0: seq<Visit>)
    requires k + n <= |all|
    ensures (v0 + Items(dir, all[..k])) + Items(dir, all[k..k + n]) == v0 + Items(dir, all[..k + n])
    ensures all[..k] + all[k..k + n] == all[..k + n]
  {
    assert all[..k] + all[k..k + n] == all[..k + n];
    ItemsConcat(dir, all[..k], all[k..k + n]);
  }

  /** After a batch of `n` more entries: a longer part has been read, or the budget ended the directory. */
  ghost predicate AfterBatch(fs: FileSystem, dir: Path, k: nat, n: nat, left: nat,
                             before: seq<Visit>, after: seq<Visit>, children: seq<Path>, err: Error)
  {
    if err == [] then n <= left && ReadSoFar(fs, dir, k + n, before, after, children)
    else VisitedWithin(fs, dir, fs.listing(dir), k + left, before, after, [], err)
  }

  lemma {:induction false} ExceededBatch(dir: Path, all: seq<Entry>, k: nat, batch: seq<Entry>, left: nat, v0: seq<Visit>)
    requires k + |batch| <= |all| && batch == all[k..k + |batch|] && left < |batch|
    ensures (v0 + Items(dir, all[..k])) + Items(dir, Allowed(batch, left)) == v0 + Items(dir, Allowed(all, k + left))
  {
    SplitItems(dir, all, k, left, v0);
    assert batch[..left] == all[k..k + left];
  }

  /**
    Visiting the batch that follows the first `k` entries amounts to visiting a longer
    part of the listing; when the batch exceeds the budget, so does the listing.
  */
  lemma {:induction false} BatchJoins(fs: FileSystem, dir: Path, k: nat, batch: seq<Entry>, left: nat,
                                      v0: seq<Visit>, v1: seq<Visit>, v2: seq<Visit>,
                                      c1: seq<Path>, c2: seq<Path>, result: seq<Path>, err: Error)
    requires k + |batch| <= |fs.listing(dir)| && batch == fs.listing(dir)[k..k + |batch|]
    requires ReadSoFar(fs, dir, k, v0, v1, c1)
    requires VisitedWithin(fs, dir, batch, left, v1, v2, c2, err)
    requires err == [] ==> result == c1 + c2
    ensures AfterBatch(fs, dir, k, |batch|, left, v0, v2, result, err)
  {
    var all := fs.listing(dir);
    if err == [] {
      SplitItems(dir, all, k, |batch|, v0);
      ChildrenConcat(fs, dir, all[..k], batch);
    } else {
      ExceededBatch(dir, all, k, batch, left, v0);
    }
  }

  // ---------- The walk, and the finite tree it needs ----------

  /** How a quiet walk over a stack of pending directories ends, given the remaining budget. */
  datatype Outcome = Outcome(ok: bool, visits: seq<Visit>)

  function Walk(fs: FileSystem, pending: seq<Path>, remaining: nat): (o: Outcome)
    ensures |o.visits| <= remaining && (!o.ok ==> |o.visits| == remaining)
    decreases remaining + |pending|
  {
    if pending == [] then Outcome(true, [])
    else
      var directory := pending[|pending| - 1];
      var all := fs.listing(directory);
      if |all| > remaining then Outcome(false, Items(directory, all[..remaining]))
      else
        var rest := Walk(fs, pending[..|pending| - 1] + Children(fs, directory, all), remaining - |all|);
        Outcome(rest.ok, Items(directory, all) + rest.visits)
  }

  /**
    A finite unfolding of the directories reached from a stack of paths: the top of
    the stack, what lies below it, and the rest of the stack.
  */
  datatype Forest = Nil | Cons(path: Path, below: Forest, rest: Forest)

  predicate Unfolds(fs: FileSystem, f: Forest, stack: seq<Path>) {
    match f
    case Nil => stack == []
    case Cons(path, below, rest) =>
      && stack != [] && path == stack[|stack| - 1]
      && Unfolds(fs, below, Children(fs, path, fs.listing(path)))
      && Unfolds(fs, rest, stack[..|stack| - 1])
  }

  function Size(fs: FileSystem, f: Forest): nat {
    match f
    case Nil => 0
    case Cons(path, below, rest) => |fs.listing(path)| + Size(fs, below) + Size(fs, rest)
  }

  /** All entries of a forest: those of every directory that is entered, each once. */
  function EntriesBelow(fs: FileSystem, f: Forest): multiset<Visit> {
    match f
    case Nil => multiset{}
    case Cons(path, below, rest) =>
      multiset(Items(path, fs.listing(path))) + EntriesBelow(fs, below) + EntriesBelow(fs, rest)
  }

  function Append(top: Forest, under: Forest): Forest {
    match top
    case Nil => under
    case Cons(path, below, rest) => Cons(path, below, Append(rest, under))
  }

  lemma {:induction false} AppendUnfolds(fs: FileSystem, top: Forest, s: seq<Path>, under: Forest, t: seq<Path>)
    requires Unfolds(fs, top, s) && Unfolds(fs, under, t)
    ensures Unfolds(fs, Append(top, under), t + s)
    decreases top
  {
    if top.Nil? {
      assert t + s == t;
    } else {
      assert (t + s)[..|t + s| - 1] == t + s[..|s| - 1];
      AppendUnfolds(fs, top.rest, s[..|s| - 1], under, t);
    }
  }

  lemma {:induction false} AppendCounts(fs: FileSystem, top: Forest, under: Forest)
    ensures Size(fs, Append(top, under)) == Size(fs, top) + Size(fs, under)
    ensures EntriesBelow(fs, Append(top, under)) == EntriesBelow(fs, top) + EntriesBelow(fs, under)
  {
    if top.Nil? {
    } else {
      AppendCounts(fs, top.rest, under);
    }
  }

  lemma {:induction false} SplitUnfolding(fs: FileSystem, f: Forest, t: seq<Path>, s: seq<Path>)
    requires Unfolds(fs, f, t + s)
    ensures exists top, under :: Unfolds(fs, top, s) && Unfolds(fs, under, t) && f == Append(top, under)
    decreases f
  {
    if s == [] {
      assert t + s == t;
      assert Unfolds(fs, Nil, s) && Append(Nil, f) == f;
    } else {
      var front := s[..|s| - 1];
      assert (t + s)[..|t + s| - 1] == t + front;
      SplitUnfolding(fs, f.rest, t, front);
      var rest, under :| Unfolds(fs, rest, front) && Unfolds(fs, under, t) && f.rest == Append(rest, under);
      assert Unfolds(fs, Cons(f.path, f.below, rest), s) && f == Append(Cons(f.path, f.below, rest), under);
    }
  }

  /** The tree below a stack of directories is unique when it is finite. */
  lemma {:induction false} UnfoldingUnique(fs: FileSystem, f: Forest, g: Forest, stack: seq<Path>)
    requires Unfolds(fs, f, stack) && Unfolds(fs, g, stack)
    ensures f == g
    decreases f
  {
    if f.Nil? {
    } else {
      UnfoldingUnique(fs, f.below, g.below, Children(fs, f.path, fs.listing(f.path)));
      UnfoldingUnique(fs, f.rest, g.rest, stack[..|stack| - 1]);
    }
  }

  /**
    Walking `next` with what is left of the budget completes the walk of `pending`:
    same success, same visits. With an error the walk of `pending` ends here.
  */
  ghost predicate SameOutcome(fs: FileSystem, pending: seq<Path>, remaining: nat, before: seq<Visit>,
                              next: seq<Path>, left: nat, after: seq<Visit>, err: Error)
  {
    var whole := Walk(fs, pending, remaining);
    if err == [] then
      var rest := Walk(fs, next, left);
      whole.ok == rest.ok && before + whole.visits == after + rest.visits
    else err == [LimitExceeded] && !whole.ok && before + whole.visits == after
  }

  lemma {:induction false} StepKeepsOutcome(fs: FileSystem, stack: seq<Path>, directory: Path, remaining: nat,
                         before: seq<Visit>, after: seq<Visit>, children: seq<Path>, err: Error)
    requires VisitedWithin(fs, directory, fs.listing(directory), remaining, before, after, children, err)
    ensures var left := if err == [] then remaining - |fs.listing(directory)| else 0;
      SameOutcome(fs, stack + [directory], remaining, before, stack + children, left, after, err)
  {
    assert (stack + [directory])[..|stack|] == stack;
    if err == [] {
      var rest := Walk(fs, stack + children, remaining - |fs.listing(directory)|);
      assert before + (Items(directory, fs.listing(directory)) + rest.visits) == after + rest.visits;
    }
  }

  /** `g` is what is left of the forest `f` of a stack once the directory on its top has been read. */
  ghost predicate Popped(fs: FileSystem, f: Forest, pending: seq<Path>, g: Forest)
    requires pending != []
  {
    var stack, top := pending[..|pending| - 1], pending[|pending| - 1];
    var all := fs.listing(top);
    && Unfolds(fs, g, stack + Children(fs, top, all))
    && Size(fs, f) == |all| + Size(fs, g)
    && EntriesBelow(fs, f) == multiset(Items(top, all)) + EntriesBelow(fs, g)
  }

  /** Popping the top of the stack: its children's forests come before the rest. */
  lemma {:induction false} PopForest(fs: FileSystem, f: Forest, pending: seq<Path>)
    requires Unfolds(fs, f, pending) && pending != []
    ensures exists g :: Popped(fs, f, pending, g)
  {
    AppendUnfolds(fs, f.below, Children(fs, f.path, fs.listing(f.path)), f.rest, pending[..|pending| - 1]);
    AppendCounts(fs, f.below, f.rest);
    assert Popped(fs, f, pending, Append(f.below, f.rest));
  }

  lemma {:induction false} WalkStep(fs: FileSystem, pending: seq<Path>, remaining: nat, next: seq<Path>,
                                    whole: Outcome, rest: Outcome)
    requires pending != [] && |fs.listing(pending[|pending| - 1])| <= remaining
    requires var stack, top := pending[..|pending| - 1], pending[|pending| - 1];
      next == stack + Children(fs, top, fs.listing(top)) && rest == Walk(fs, next, remaining - |fs.listing(top)|)
    requires whole == Walk(fs, pending, remaining)
    ensures var top := pending[|pending| - 1];
      whole.ok == rest.ok && multiset(whole.visits) == multiset(Items(top, fs.listing(top))) + multiset(rest.visits)
  {
  }

  /** If the tree is finite and fits the budget, the walk succeeds and visits exactly its entries. */
  lemma {:induction false} FittingWalkSucceeds(fs: FileSystem, f: Forest, pending: seq<Path>, remaining: nat,
                                               outcome: Outcome)
    requires Unfolds(fs, f, pending) && Size(fs, f) <= remaining && outcome == Walk(fs, pending, remaining)
    ensures outcome.ok && multiset(outcome.visits) == EntriesBelow(fs, f)
    decreases remaining + |pending|
  {
    if f.Nil? {
    } else {
      var stack, top := pending[..|pending| - 1], pending[|pending| - 1];
      var all := fs.listing(top);
      var next := stack + Children(fs, top, all);
      PopForest(fs, f, pending);
      var g :| Popped(fs, f, pending, g);
      var rest := Walk(fs, next, remaining - |all|);
      FittingWalkSucceeds(fs, g, next, remaining - |all|, rest);
      WalkStep(fs, pending, remaining, next, outcome, rest);
    }
  }

  lemma {:induction false} EntriesCounted(fs: FileSystem, f: Forest)
    ensures |EntriesBelow(fs, f)| == Size(fs, f)
  {
    if f.Nil? {
    } else {
      EntriesCounted(fs, f.below);
      EntriesCounted(fs, f.rest);
    }
  }

  /** If the walk succeeds, the tree is finite and fits the budget. */
  lemma {:induction false} SuccessfulWalkFits(fs: FileSystem, pending: seq<Path>, remaining: nat)
    requires Walk(fs, pending, remaining).ok
    ensures exists f :: Unfolds(fs, f, pending) && Size(fs, f) <= remaining
    decreases remaining + |pending|
  {
    if pending == [] {
      assert Unfolds(fs, Nil, pending) && Size(fs, Nil) == 0;
    } else {
      var directory := pending[|pending| - 1];
      var all := fs.listing(directory);
      var stack, children := pending[..|pending| - 1], Children(fs, directory, all);
      SuccessfulWalkFits(fs, stack + children, remaining - |all|);
      var g :| Unfolds(fs, g, stack + children) && Size(fs, g) <= remaining - |all|;
      SplitUnfolding(fs, g, stack, children);
      var below, rest :| Unfolds(fs, below, children) && Unfolds(fs, rest, stack) && g == Append(below, rest);
      AppendCounts(fs, below, rest);
      var f := Cons(directory, below, rest);
      assert Unfolds(fs, f, pending) && Size(fs, f) <= remaining;
    }
  }

  /** A tree in which every directory has a subdirectory to enter never ends, so it fits no budget. */
  lemma {:induction false} EndlessTreeNeverFits(fs: FileSystem, f: Forest, stack: seq<Path>)
    requires forall p :: Children(fs, p, fs.listing(p)) != []
    requires stack != []
    ensures !Unfolds(fs, f, stack)
    decreases f
  {
    if f.Nil? {
    } else {
      EndlessTreeNeverFits(fs, f.below, Children(fs, f.path, fs.listing(f.path)));
    }
  }

  /** The directories on the initial stack: the root, unless it is a file or skipped. */
  function RootStack(fs: FileSystem, root: Path): seq<Path> {
    if Descends(fs, root, fs.rootEntry) then [root] else []
  }

  /** The root and every entry outside skipped subtrees are finitely many and fit the budget. */
  ghost predicate Fits(fs: FileSystem, root: Path, remaining: nat) {
    exists f :: Unfolds(fs, f, RootStack(fs, root)) && 1 + Size(fs, f) <= remaining
  }

  lemma {:induction false} WalkSucceedsIffFits(fs: FileSystem, root: Path, remaining: nat)
    requires remaining > 0
    ensures Walk(fs, RootStack(fs, root), remaining - 1).ok <==> Fits(fs, root, remaining)
  {
    var stack := RootStack(fs, root);
    if Walk(fs, stack, remaining - 1).ok {
      SuccessfulWalkFits(fs, stack, remaining - 1);
    }
    if Fits(fs, root, remaining) {
      var f :| Unfolds(fs, f, stack) && 1 + Size(fs, f) <= remaining;
      FittingWalkSucceeds(fs, f, stack, remaining - 1, Walk(fs, stack, remaining - 1));
    }
  }

  /** The visits are the root and every entry outside skipped subtrees, each once. */
  ghost predicate VisitsTheWholeTree(fs: FileSystem, root: Path, visits: seq<Visit>) {
    exists f :: Unfolds(fs, f, RootStack(fs, root))
      && |visits| == 1 + Size(fs, f)
      && multiset(visits) == multiset{Visit(root, fs.rootEntry)} + EntriesBelow(fs, f)
  }

  // ---------- What is visited, from the entries alone ----------

  /** The visit of an entry that the directory `d` lists. */
  predicate Listed(fs: FileSystem, d: Path, v: Visit) {
    v.path == d + [v.entry.name] && v.entry in fs.listing(d)
  }

  /** Some visit was of the directory `d`, which the visitor did not skip. */
  ghost predicate Entered(fs: FileSystem, visits: seq<Visit>, d: Path) {
    exists u :: u in visits && u.path == d && u.entry.isDir && !fs.skip(d, u.entry)
  }

  lemma {:induction false} ItemsMember(dir: Path, entries: seq<Entry>, v: Visit)
    ensures v in Items(dir, entries) <==> v.path == dir + [v.entry.name] && v.entry in entries
  {
    if entries == [] {
    } else {
      var front, e := entries[..|entries| - 1], entries[|entries| - 1];
      assert entries == front + [e];
      ItemsMember(dir, front, v);
    }
  }

  lemma {:induction false} ChildrenMember(fs: FileSystem, dir: Path, entries: seq<Entry>, p: Path)
    ensures p in Children(fs, dir, entries) <==> exists e :: e in entries && p == dir + [e.name] && e.isDir && !fs.skip(p, e)
  {
    if entries == [] {
    } else {
      var front, e := entries[..|entries| - 1], entries[|entries| - 1];
      assert entries == front + [e];
      ChildrenMember(fs, dir, front, p);
    }
  }

  /** Every visit of a walk is of an entry listed by a directory on the stack or entered on the way. */
  lemma {:induction false} VisitsAreListed(fs: FileSystem, pending: seq<Path>, remaining: nat, visits: seq<Visit>, v: Visit)
    requires visits == Walk(fs, pending, remaining).visits && v in visits
    ensures exists d :: Listed(fs, d, v) && (d in pending || Entered(fs, visits, d))
    decreases remaining + |pending|
  {
    var top := pending[|pending| - 1];
    var all, children := fs.listing(top), Children(fs, top, fs.listing(top));
    if |all| > remaining {
      ItemsMember(top, all[..remaining], v);
      assert Listed(fs, top, v);
    } else {
      var next := pending[..|pending| - 1] + children;
      var rest := Walk(fs, next, remaining - |all|).visits;
      assert visits == Items(top, all) + rest;
      if v in Items(top, all) {
        ItemsMember(top, all, v);
        assert Listed(fs, top, v);
      } else {
        VisitsAreListed(fs, next, remaining - |all|, rest, v);
        var d :| Listed(fs, d, v) && (d in next || Entered(fs, rest, d));
        if d in children {
          ChildrenMember(fs, top, all, d);
          var e :| e in all && d == top + [e.name] && e.isDir && !fs.skip(d, e);
          ItemsMember(top, all, Visit(d, e));
          assert Entered(fs, visits, d);
        }
      }
    }
  }

  /** A successful walk visits every entry that a directory on the stack lists. */
  lemma {:induction false} PendingIsVisited(fs: FileSystem, pending: seq<Path>, remaining: nat,
                                            visits: seq<Visit>, d: Path, e: Entry)
    requires Walk(fs, pending, remaining) == Outcome(true, visits) && d in pending && e in fs.listing(d)
    ensures Visit(d + [e.name], e) in visits
    decreases remaining + |pending|
  {
    var stack, top := pending[..|pending| - 1], pending[|pending| - 1];
    var all := fs.listing(top);
    var rest := Walk(fs, stack + Children(fs, top, all), remaining - |all|).visits;
    if d == top {
      ItemsMember(top, all, Visit(d + [e.name], e));
    } else {
      PendingIsVisited(fs, stack + Children(fs, top, all), remaining - |all|, rest, d, e);
    }
  }

  /** A successful walk visits every entry of a directory that it visits and the visitor does not skip. */
  lemma {:induction false} EnteredIsVisited(fs: FileSystem, pending: seq<Path>, remaining: nat,
                                            visits: seq<Visit>, u: Visit, e: Entry)
    requires Walk(fs, pending, remaining) == Outcome(true, visits) && u in visits
    requires u.entry.isDir && !fs.skip(u.path, u.entry) && e in fs.listing(u.path)
    ensures Visit(u.path + [e.name], e) in visits
    decreases remaining + |pending|
  {
    var stack, top := pending[..|pending| - 1], pending[|pending| - 1];
    var all, children := fs.listing(top), Children(fs, top, fs.listing(top));
    var rest := Walk(fs, stack + children, remaining - |all|).visits;
    assert visits == Items(top, all) + rest;
    if u in Items(top, all) {
      ItemsMember(top, all, u);
      ChildrenMember(fs, top, all, u.path);
      PendingIsVisited(fs, stack + children, remaining - |all|, rest, u.path, e);
    } else {
      EnteredIsVisited(fs, stack + children, remaining - |all|, rest, u, e);
    }
  }

  /** A visited directory that is not skipped lists the visited entry. */
  ghost predicate UnderEntered(fs: FileSystem, visits: seq<Visit>, v: Visit) {
    exists d :: Listed(fs, d, v) && Entered(fs, visits, d)
  }

  /** The root comes first; every other visit is of an entry listed by a visited directory that is not skipped. */
  ghost predicate NothingUnderSkipped(fs: FileSystem, root: Path, visits: seq<Visit>) {
    && (visits != [] ==> visits[0] == Visit(root, fs.rootEntry))
    && forall i :: 0 < i < |visits| ==> UnderEntered(fs, visits, visits[i])
  }

  /** The root and every entry of every visited directory that is not skipped are visited. */
  ghost predicate NothingMissed(fs: FileSystem, root: Path, visits: seq<Visit>) {
    && Visit(root, fs.rootEntry) in visits
    && forall u, e :: u in visits && u.entry.isDir && !fs.skip(u.path, u.entry) && e in fs.listing(u.path) ==>
         Visit(u.path + [e.name], e) in visits
  }

  lemma {:induction false} WalkStaysOutside(fs: FileSystem, root: Path, remaining: nat, visits: seq<Visit>)
    requires visits == [Visit(root, fs.rootEntry)] + Walk(fs, RootStack(fs, root), remaining).visits
    ensures NothingUnderSkipped(fs, root, visits)
  {
    var walked := Walk(fs, RootStack(fs, root), remaining).visits;
    forall i | 0 < i < |visits|
      ensures UnderEntered(fs, visits, visits[i])
    {
      assert visits[i] == walked[i - 1] && walked[i - 1] in walked;
      VisitsAreListed(fs, RootStack(fs, root), remaining, walked, visits[i]);
      var d :| Listed(fs, d, visits[i]) && (d in RootStack(fs, root) || Entered(fs, walked, d));
      assert visits[0] in visits;
      assert Entered(fs, visits, d);
    }
  }

  lemma {:induction false} WalkMissesNothing(fs: FileSystem, root: Path, remaining: nat, visits: seq<Visit>)
    requires visits == [Visit(root, fs.rootEntry)] + Walk(fs, RootStack(fs, root), remaining).visits
    requires Walk(fs, RootStack(fs, root), remaining).ok
    ensures NothingMissed(fs, root, visits)
  {
    var walked := Walk(fs, RootStack(fs, root), remaining).visits;
    assert visits[0] in visits;
    forall u, e | u in visits && u.entry.isDir && !fs.skip(u.path, u.entry) && e in fs.listing(u.path)
      ensures Visit(u.path + [e.name], e) in visits
    {
      if u in walked {
        EnteredIsVisited(fs, RootStack(fs, root), remaining, walked, u, e);
      } else {
        PendingIsVisited(fs, RootStack(fs, root), remaining, walked, root, e);
      }
    }
  }

  /** What the visits made after `before` amount to, once the root was visited and its stack walked. */
  lemma {:induction false} CompletedWalk(fs: FileSystem, root: Path, remaining: nat, before: seq<Visit>, after: seq<Visit>)
    requires remaining > 0
    requires after == before + [Visit(root, fs.rootEntry)] + Walk(fs, RootStack(fs, root), remaining - 1).visits
    ensures Walk(fs, RootStack(fs, root), remaining - 1).ok <==> Fits(fs, root, remaining)
    ensures before <= after
    ensures Fits(fs, root, remaining) ==> VisitsTheWholeTree(fs, root, after[|before|..])
    ensures Fits(fs, root, remaining) ==> NothingMissed(fs, root, after[|before|..])
    ensures !Fits(fs, root, remaining) ==> |after| - |before| == remaining
    ensures NothingUnderSkipped(fs, root, after[|before|..])
  {
    var outcome := Walk(fs, RootStack(fs, root), remaining - 1);
    WalkSucceedsIffFits(fs, root, remaining);
    assert after[|before|..] == [Visit(root, fs.rootEntry)] + outcome.visits;
    WalkStaysOutside(fs, root, remaining - 1, after[|before|..]);
    if Fits(fs, root, remaining) {
      var f :| Unfolds(fs, f, RootStack(fs, root)) && 1 + Size(fs, f) <= remaining;
      FittingWalkSucceeds(fs, f, RootStack(fs, root), remaining - 1, outcome);
      WalkMissesNothing(fs, root, remaining - 1, after[|before|..]);
      EntriesCounted(fs, f);
      assert |outcome.visits| == |multiset(outcome.visits)|;
    }
  }
}
