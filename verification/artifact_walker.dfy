/**
  The bounded artifact walker: a depth-first traversal with an explicit stack of
  pending directories, read in batches under a shared entry budget. The host
  (context, file system, readers, visitor) answers every call as an arbitrary
  function of the time of the call, so it may cancel, fail, loop for ever or
  change its mind; nothing below assumes that the tree is finite or acyclic.
*/
module ArtifactWalker {
  import opened Numbers
  import opened Wrappers
  import opened ArtifactTree

  const READ_BATCH_SIZE: int := 256

  datatype ReadError = NoError | EndOfDirectory | ReadFailure

  datatype OpenReply = OpenReply(hasReader: bool, failed: bool)
  datatype ReadReply = ReadReply(entries: seq<Entry>, error: ReadError)
  datatype VisitReply = VisitReply(action: Action, failed: bool)

  /** All answers of the outside world; the first argument is the time of the call. */
  datatype World = World(
    cancelled: nat -> bool,
    lstat: nat -> Option<Entry>,
    open: (nat, Path) -> OpenReply,
    read: (nat, Path, nat, nat) -> ReadReply, // time, directory, entries already delivered, batch size
    closeFails: nat -> bool,
    visit: (nat, Path, Entry) -> VisitReply)

  /** A read that failed, or that returned nothing without reaching the end. */
  predicate Bad(reply: ReadReply) {
    reply.error == ReadFailure || (reply.error == NoError && reply.entries == [])
  }

  /** An opened directory reader and how often it was closed. */
  datatype Reader = Reader(path: Path, closes: nat)

  // ---------- The entry budget ----------

  class EntryBudget {
    const limit: int
    var visited: int

    constructor (limit: int)
      ensures this.limit == limit && visited == 0
    {
      this.limit := limit;
      visited := 0;
    }

    predicate Valid()
      reads this
    {
      limit > 0 && visited >= 0
    }

    /** How many more entries may be visited. */
    function Remaining(): nat
      reads this
    {
      Max(limit - visited, 0)
    }

    /** `validArguments`: the artifact kind and the entry's path are valid. */
    method Consume(validArguments: bool) returns (err: Error)
      modifies this
      ensures err == if !validArguments || !old(Valid()) then [InvalidBudget]
                     else if old(Remaining()) == 0 then [LimitExceeded] else []
      ensures visited == if err == [] then old(visited) + 1 else old(visited)
      ensures err == [] ==> 1 <= visited <= limit
      ensures validArguments && 0 <= old(visited) < limit ==> err == []
    {
      if !validArguments || !Valid() {
        return [InvalidBudget];
      }
      if visited >= limit {
        return [LimitExceeded];
      }
      visited := visited + 1;
      err := [];
    }

    /** A batch never asks for more than one entry beyond the allowance, and always for one. */
    method NextReadSize() returns (count: nat)
      ensures 1 <= count <= 256
      ensures count <= Remaining() + 1
      ensures count < 256 ==> count == Remaining() + 1
    {
      var remaining := limit - visited;
      if remaining >= READ_BATCH_SIZE {
        return READ_BATCH_SIZE;
      }
      if remaining < 0 {
        return 1;
      }
      return remaining + 1;
    }
  }

  // ---------- The host ----------

  class Host {
    const world: World
    var clock: nat
    var readers: seq<Reader>
    var delivered: nat // entries delivered by the reader opened last, the only one that is read
    var visits: seq<Visit>
    var pulled: nat // entries delivered by all readers
    var faults: nat // answers that must not go unreported: cancellations, failures, nonsense

    constructor (world: World)
      ensures this.world == world && readers == [] && visits == [] && pulled == 0 && faults == 0
    {
      this.world := world;
      clock, readers, delivered, visits, pulled, faults := 0, [], 0, [], 0, 0;
    }

    method Cancelled() returns (c: bool)
      modifies this`clock, this`faults
      ensures c == world.cancelled(old(clock)) && clock == old(clock) + 1
      ensures faults == old(faults) + Bit(c)
    {
      c := world.cancelled(clock);
      clock, faults := clock + 1, faults + Bit(c);
    }

    method Lstat() returns (entry: Option<Entry>)
      modifies this`clock, this`faults
      ensures entry == world.lstat(old(clock)) && clock == old(clock) + 1
      ensures faults == old(faults) + Bit(entry.None?)
    {
      entry := world.lstat(clock);
      clock, faults := clock + 1, faults + Bit(entry.None?);
    }

    /** Opens a directory; `reader` is an index into `readers` when the reply has one. */
    method Open(path: Path) returns (reader: Option<nat>, failed: bool)
      modifies this`clock, this`readers, this`delivered, this`faults
      ensures delivered == 0 && clock == old(clock) + 1
      ensures faults == old(faults) + Bit(failed || reader.None?)
      ensures var reply := world.open(old(clock), path);
        && failed == reply.failed
        && reader == (if reply.hasReader then Some(|old(readers)|) else None)
        && readers == old(readers) + (if reply.hasReader then [Reader(path, 0)] else [])
    {
      var reply := world.open(clock, path);
      clock, delivered, failed, reader := clock + 1, 0, reply.failed, None;
      if reply.hasReader {
        reader := Some(|readers|);
        readers := readers + [Reader(path, 0)];
      }
      faults := faults + Bit(failed || reader.None?);
    }

    method ReadDir(count: nat) returns (reply: ReadReply)
      requires readers != []
      modifies this`clock, this`delivered, this`pulled, this`faults
      ensures faults == old(faults) + Bit(Bad(reply))
      ensures reply == world.read(old(clock), readers[|readers| - 1].path, old(delivered), count)
      ensures pulled == old(pulled) + |reply.entries|
      ensures delivered == old(delivered) + |reply.entries|
    {
      reply := world.read(clock, readers[|readers| - 1].path, delivered, count);
      clock, delivered, pulled := clock + 1, delivered + |reply.entries|, pulled + |reply.entries|;
      faults := faults + Bit(Bad(reply));
    }

    method Close(r: nat) returns (failed: bool)
      requires r < |readers|
      modifies this`clock, this`readers, this`faults
      ensures faults == old(faults) + Bit(failed)
      ensures failed == world.closeFails(old(clock)) && clock == old(clock) + 1
      ensures readers == old(readers)[r := old(readers)[r].(closes := old(readers)[r].closes + 1)]
    {
      failed := world.closeFails(clock);
      clock, faults := clock + 1, faults + Bit(failed);
      readers := readers[r := readers[r].(closes := readers[r].closes + 1)];
    }

    method CallVisitor(path: Path, entry: Entry) returns (reply: VisitReply)
      modifies this`clock, this`visits, this`faults
      ensures faults == old(faults) + Bit(reply.failed || reply.action == Unrecognized)
      ensures reply == world.visit(old(clock), path, entry) && clock == old(clock) + 1
      ensures visits == old(visits) + [Visit(path, entry)]
    {
      reply := world.visit(clock, path, entry);
      clock, visits := clock + 1, visits + [Visit(path, entry)];
      faults := faults + Bit(reply.failed || reply.action == Unrecognized);
    }
  }

  /** Every reader from index `from` on was closed exactly once. */
  ghost predicate ClosedOnce(readers: seq<Reader>, from: nat) {
    forall i :: from <= i < |readers| ==> readers[i].closes == 1
  }

  /** A reader never returns more entries than it was asked for. */
  ghost predicate HonoursCount(world: World) {
    forall t: nat, p: Path, k: nat, n: nat :: |world.read(t, p, k, n).entries| <= n
  }

  // ---------- A well-behaved world ----------

  /** A batch is the next part of the listing; it may be short, but is empty only at the end. */
  predicate BatchOf(reply: ReadReply, all: seq<Entry>, delivered: nat, count: nat) {
    && |reply.entries| <= count
    && delivered + |reply.entries| <= |all|
    && reply.entries == all[delivered..delivered + |reply.entries|]
    && match reply.error
       case EndOfDirectory => delivered + |reply.entries| == |all|
       case NoError => reply.entries != []
       case ReadFailure => false
  }

  /** No cancellation, no I/O error, no visitor error, skips decided by the entry alone. */
  ghost predicate Quiet(world: World, fs: FileSystem) {
    && (forall t :: !world.cancelled(t))
    && (forall t :: world.lstat(t) == Some(fs.rootEntry))
    && (forall t, p :: world.open(t, p) == OpenReply(true, false))
    && (forall t :: !world.closeFails(t))
    && (forall t, p, e :: world.visit(t, p, e) == VisitReply(if fs.skip(p, e) then SkipSubtree else Continue, false))
    && (forall t: nat, p: Path, k: nat, n: nat :: k <= |fs.listing(p)| && n >= 1 ==>
          BatchOf(world.read(t, p, k, n), fs.listing(p), k, n))
  }

  /** Charges one entry to the budget and shows it to the visitor. */
  method VisitEntry(host: Host, budget: EntryBudget, path: Path, entry: Entry, ghost fs: FileSystem)
    returns (descend: bool, err: Error)
    modifies host`clock, host`visits, host`faults, budget
    ensures err == [] ==> host.faults == old(host.faults)
    ensures if old(budget.Remaining()) == 0 || !old(budget.Valid())
            then err != [] && budget.visited == old(budget.visited) && host.visits == old(host.visits)
            else budget.visited == old(budget.visited) + 1 && host.visits == old(host.visits) + [Visit(path, entry)]
    ensures err == [] ==> descend == (entry.isDir && host.world.visit(old(host.clock), path, entry).action != SkipSubtree)
    ensures Quiet(host.world, fs) && old(budget.Valid()) ==>
      if old(budget.Remaining()) == 0 then err == [LimitExceeded]
      else err == [] && descend == Descends(fs, path, entry)
    ensures old(budget.Valid()) && old(budget.Remaining()) > 0 ==>
      var reply := host.world.visit(old(host.clock), path, entry);
      err == if host.world.cancelled(old(host.clock) + 1) then [Cancelled]
             else if reply.failed then [VisitorFailed]
             else if reply.action == Unrecognized then [InvalidAction] else []
  {
    // The walk checked kind and root; joining a name keeps a path non-blank.
    err := budget.Consume(true);
    if err != [] {
      return false, err;
    }
    var reply := host.CallVisitor(path, entry);
    var cancelled := host.Cancelled();
    if cancelled {
      return false, [Cancelled];
    }
    if reply.failed {
      return false, [VisitorFailed];
    }
    if reply.action == Unrecognized {
      return false, [InvalidAction];
    }
    return entry.isDir && reply.action != SkipSubtree, [];
  }

  method VisitDirectoryEntries(host: Host, budget: EntryBudget, directory: Path, children: seq<Path>,
                               entries: seq<Entry>, ghost fs: FileSystem)
    returns (result: seq<Path>, err: Error, ghost found: seq<Path>)
    modifies host`clock, host`visits, host`faults, budget
    ensures err == [] ==> host.faults == old(host.faults)
    ensures 0 <= |host.visits| - |old(host.visits)| == budget.visited - old(budget.visited) <= old(budget.Remaining())
    ensures err == [] ==> budget.visited == old(budget.visited) + |entries|
    ensures err == [] ==> result == children + found && |found| <= |entries|
    ensures forall p :: p in found ==> exists e :: e in entries && e.isDir && p == directory + [e.name]
    ensures Quiet(host.world, fs) && old(budget.Valid()) ==>
      VisitedWithin(fs, directory, entries, old(budget.Remaining()), old(host.visits), host.visits, found, err)
  {
    ghost var quiet := Quiet(host.world, fs) && budget.Valid();
    result, found := children, [];
    NothingVisited(fs, directory, entries, host.visits);
    for i := 0 to |entries|
      invariant host.faults == old(host.faults)
      invariant 0 <= |host.visits| - |old(host.visits)| == budget.visited - old(budget.visited) == i <= old(budget.Remaining())
      invariant result == children + found && |found| <= i
      invariant forall p :: p in found ==> exists e :: e in entries && e.isDir && p == directory + [e.name]
      invariant quiet ==> VisitedPart(fs, directory, entries, i, old(host.visits), host.visits, found)
    {
      var entry := entries[i];
      var entryPath := directory + [entry.name];
      if quiet {
        OneMoreEntry(fs, directory, entries, i, old(host.visits), host.visits, found);
      }
      var cancelled := host.Cancelled();
      if cancelled {
        return [], [Cancelled], found;
      }
      var descend;
      descend, err := VisitEntry(host, budget, entryPath, entry, fs);
      if err != [] {
        if quiet {
          VisitEnds(fs, directory, entries, i, old(budget.Remaining()), old(host.visits), host.visits, found, err);
        }
        return [], err, found;
      }
      if descend {
        result, found := result + [entryPath], found + [entryPath];
      }
    }
    err := [];
    if quiet {
      VisitEnds(fs, directory, entries, |entries|, old(budget.Remaining()), old(host.visits), host.visits, found, err);
    }
  }

  /** One read, sized by the budget and guarded by the context on both sides. */
  method ReadBatch(host: Host, budget: EntryBudget, directory: Path, ghost fs: FileSystem)
    returns (reply: ReadReply, cancelled: bool)
    requires host.readers != [] && host.readers[|host.readers| - 1].path == directory
    modifies host`clock, host`delivered, host`pulled, host`faults
    ensures !cancelled && !Bad(reply) ==> host.faults == old(host.faults)
    ensures host.delivered - old(host.delivered) == host.pulled - old(host.pulled) >= 0
    ensures !cancelled ==> host.pulled - old(host.pulled) == |reply.entries|
    ensures HonoursCount(host.world) ==> host.pulled - old(host.pulled) <= budget.Remaining() + 1
    ensures Quiet(host.world, fs) && old(host.delivered) <= |fs.listing(directory)| ==>
      !cancelled && BatchOf(reply, fs.listing(directory), old(host.delivered), |reply.entries|)
  {
    reply := ReadReply([], NoError);
    cancelled := host.Cancelled();
    if !cancelled {
      var count := budget.NextReadSize();
      reply := host.ReadDir(count);
      cancelled := host.Cancelled();
    }
  }

  /** Reads a batch and visits it; the error that came with the batch is not examined yet. */
  method VisitBatch(host: Host, budget: EntryBudget, directory: Path, children: seq<Path>,
                    ghost fs: FileSystem, ghost quiet: bool, ghost first: seq<Visit>)
    returns (reply: ReadReply, result: seq<Path>, err: Error)
    requires host.readers != [] && host.readers[|host.readers| - 1].path == directory
    requires quiet ==>
      && Quiet(host.world, fs) && budget.Valid()
      && ReadSoFar(fs, directory, host.delivered, first, host.visits, children)
    modifies host`clock, host`visits, host`delivered, host`pulled, host`faults, budget
    ensures err == [] && !Bad(reply) ==> host.faults == old(host.faults)
    ensures 0 <= |host.visits| - |old(host.visits)| == budget.visited - old(budget.visited) <= old(budget.Remaining())
    ensures host.delivered - old(host.delivered) == host.pulled - old(host.pulled) >= 0
    ensures err == [] ==>
      |reply.entries| == host.pulled - old(host.pulled) == budget.visited - old(budget.visited) >= |result| - |children|
    ensures HonoursCount(host.world) ==> host.pulled - old(host.pulled) <= old(budget.Remaining()) + 1
    ensures quiet ==>
      && BatchOf(reply, fs.listing(directory), old(host.delivered), |reply.entries|)
      && AfterBatch(fs, directory, old(host.delivered), host.delivered - old(host.delivered), old(budget.Remaining()),
                    first, host.visits, result, err)
  {
    var cancelled;
    result := [];
    reply, cancelled := ReadBatch(host, budget, directory, fs);
    if cancelled {
      return reply, result, [Cancelled];
    }
    ghost var found;
    result, err, found := VisitDirectoryEntries(host, budget, directory, children, reply.entries, fs);
    if quiet {
      BatchJoins(fs, directory, old(host.delivered), reply.entries, old(budget.Remaining()),
                 first, old(host.visits), host.visits, children, found, result, err);
    }
  }

  /** One iteration of the reading loop: a batch is read and visited, and its error examined. */
  method ReadAndVisitBatch(host: Host, budget: EntryBudget, directory: Path, children: seq<Path>,
                           ghost fs: FileSystem, ghost quiet: bool, ghost first: seq<Visit>)
    returns (result: seq<Path>, done: bool, err: Error)
    requires host.readers != [] && host.readers[|host.readers| - 1].path == directory
    requires quiet ==>
      && Quiet(host.world, fs) && budget.Valid()
      && ReadSoFar(fs, directory, host.delivered, first, host.visits, children)
    modifies host`clock, host`visits, host`delivered, host`pulled, host`faults, budget
    ensures err == [] ==> host.faults == old(host.faults)
    ensures 0 <= |host.visits| - |old(host.visits)| == budget.visited - old(budget.visited) <= old(budget.Remaining())
    ensures host.delivered - old(host.delivered) == host.pulled - old(host.pulled) >= 0
    ensures err == [] ==>
      && host.pulled - old(host.pulled) == budget.visited - old(budget.visited) >= |result| - |children|
      && (!done ==> budget.visited > old(budget.visited))
    ensures HonoursCount(host.world) ==> host.pulled - old(host.pulled) <= old(budget.Remaining()) + 1
    ensures quiet ==>
      AfterBatch(fs, directory, old(host.delivered), host.delivered - old(host.delivered), old(budget.Remaining()),
                 first, host.visits, result, err)
    ensures quiet && done ==> host.delivered == |fs.listing(directory)|
  {
    done := false;
    var reply;
    reply, result, err := VisitBatch(host, budget, directory, children, fs, quiet, first);
    if err != [] {
      return result, done, err;
    }
    if reply.error == EndOfDirectory {
      done := true;
    } else if reply.error == ReadFailure {
      result, err := [], [ReadFailed];
    } else if reply.entries == [] {
      result, err := [], [EmptyBatch];
    }
  }

  /**
    Reads one opened directory to its end. On a quiet host the outcome depends on
    the listing alone, not on how the reader splits it into batches.
  */
  method ReadDirectoryEntries(host: Host, budget: EntryBudget, directory: Path, ghost fs: FileSystem)
    returns (children: seq<Path>, err: Error)
    requires host.readers != [] && host.readers[|host.readers| - 1].path == directory && host.delivered == 0
    modifies host`clock, host`visits, host`delivered, host`pulled, host`faults, budget
    ensures err == [] ==> host.faults == old(host.faults)
    ensures 0 <= |host.visits| - |old(host.visits)| == budget.visited - old(budget.visited) <= old(budget.Remaining())
    ensures err == [] ==> host.pulled - old(host.pulled) == budget.visited - old(budget.visited) >= |children|
    ensures HonoursCount(host.world) ==> host.pulled - old(host.pulled) <= old(budget.Remaining()) + 1
    ensures Quiet(host.world, fs) && old(budget.Valid()) ==>
      VisitedWithin(fs, directory, fs.listing(directory), old(budget.Remaining()),
                    old(host.visits), host.visits, children, err)
  {
    children, err := [], [];
    ghost var quiet := Quiet(host.world, fs) && budget.Valid();
    var done := false;
    NothingVisited(fs, directory, fs.listing(directory), host.visits);
    while !done
      invariant host.faults == old(host.faults)
      invariant err == []
      invariant 0 <= |host.visits| - |old(host.visits)| == budget.visited - old(budget.visited) <= old(budget.Remaining())
      invariant host.pulled - old(host.pulled) == budget.visited - old(budget.visited) >= |children|
      invariant quiet ==>
        && host.delivered == budget.visited - old(budget.visited)
        && ReadSoFar(fs, directory, host.delivered, old(host.visits), host.visits, children)
        && (done ==> host.delivered == |fs.listing(directory)|)
      decreases !done, budget.Remaining()
    {
      children, done, err := ReadAndVisitBatch(host, budget, directory, children, fs, quiet, old(host.visits));
      if err != [] {
        return [], err;
      }
    }
    if quiet {
      VisitEnds(fs, directory, fs.listing(directory), |fs.listing(directory)|, old(budget.Remaining()),
                old(host.visits), host.visits, children, []);
    }
  }

  // ---------- Whole walks ----------

  /** Closes the reader; a cancellation takes precedence, otherwise both errors are kept. */
  method FinishDirectory(host: Host, r: nat, children: seq<Path>, walkErr: Error) returns (result: seq<Path>, err: Error)
    requires r < |host.readers|
    modifies host`clock, host`readers, host`faults
    ensures err == if host.world.cancelled(old(host.clock) + 1) then [Cancelled]
                   else walkErr + if host.world.closeFails(old(host.clock)) then [CloseFailed] else []
    ensures result == if err == [] then children else []
    ensures host.readers == old(host.readers)[r := old(host.readers)[r].(closes := old(host.readers)[r].closes + 1)]
    ensures err == [] ==> host.faults == old(host.faults)
  {
    var closeFailed := host.Close(r);
    var cancelled := host.Cancelled();
    if cancelled {
      return [], [Cancelled];
    }
    err := walkErr + if closeFailed then [CloseFailed] else [];
    result := if err == [] then children else [];
  }

  /** A reader that comes with an error or a cancellation is closed before giving up. */
  method OpenDirectory(host: Host, directory: Path) returns (reader: Option<nat>, err: Error)
    modifies host`clock, host`readers, host`delivered, host`faults
    ensures err == [] ==> host.faults == old(host.faults)
    ensures old(host.readers) <= host.readers
    ensures err == [] ==> host.delivered == 0
    ensures err == [] ==> reader == Some(|old(host.readers)|) && host.readers == old(host.readers) + [Reader(directory, 0)]
    ensures err != [] ==> ClosedOnce(host.readers, |old(host.readers)|)
    ensures var reply := host.world.open(old(host.clock), directory);
      err == if host.world.cancelled(old(host.clock) + 1) then [Cancelled]
             else if reply.failed then
               [OpenFailed] + if reply.hasReader && host.world.closeFails(old(host.clock) + 2) then [CloseFailed] else []
             else if !reply.hasReader then [NilReader] else []
    ensures forall fs :: Quiet(host.world, fs) ==> err == []
  {
    var failed;
    reader, failed := host.Open(directory);
    var cancelled := host.Cancelled();
    if cancelled {
      if reader.Some? {
        var _ := host.Close(reader.value);
      }
      return None, [Cancelled];
    }
    if failed {
      err := [OpenFailed];
      if reader.Some? {
        var closeFailed := host.Close(reader.value);
        err := err + if closeFailed then [CloseFailed] else [];
      }
      return None, err;
    }
    if reader.None? {
      return None, [NilReader];
    }
    err := [];
  }

  /** Opens, reads and closes one directory; whatever happens, the reader is closed exactly once. */
  method ReadDirectory(host: Host, budget: EntryBudget, directory: Path, ghost fs: FileSystem)
    returns (children: seq<Path>, err: Error)
    modifies host`clock, host`visits, host`readers, host`delivered, host`pulled, host`faults, budget
    ensures err == [] ==> host.faults == old(host.faults)
    ensures old(host.readers) <= host.readers && ClosedOnce(host.readers, |old(host.readers)|)
    ensures 0 <= |host.visits| - |old(host.visits)| == budget.visited - old(budget.visited) <= old(budget.Remaining())
    ensures err == [] ==> host.pulled - old(host.pulled) == budget.visited - old(budget.visited) >= |children|
    ensures HonoursCount(host.world) ==> host.pulled - old(host.pulled) <= old(budget.Remaining()) + 1
    ensures Quiet(host.world, fs) && old(budget.Valid()) ==>
      VisitedWithin(fs, directory, fs.listing(directory), old(budget.Remaining()),
                    old(host.visits), host.visits, children, err)
  {
    var reader;
    reader, err := OpenDirectory(host, directory);
    if err != [] {
      return [], err;
    }
    children, err := ReadDirectoryEntries(host, budget, directory, fs);
    children, err := FinishDirectory(host, reader.value, children, err);
  }

  /** One iteration of the stack loop: a directory is popped and its children pushed. */
  method ReadTopDirectory(host: Host, budget: EntryBudget, pending: seq<Path>, ghost fs: FileSystem)
    returns (next: seq<Path>, err: Error)
    requires |pending| > 0
    modifies host`clock, host`visits, host`readers, host`delivered, host`pulled, host`faults, budget
    ensures err == [] ==> host.faults == old(host.faults)
    ensures old(host.readers) <= host.readers && ClosedOnce(host.readers, |old(host.readers)|)
    ensures 0 <= |host.visits| - |old(host.visits)| == budget.visited - old(budget.visited) <= old(budget.Remaining())
    ensures HonoursCount(host.world) ==> host.pulled - old(host.pulled) <= old(budget.Remaining()) + 1
    ensures err == [] ==>
      && host.pulled - old(host.pulled) == budget.visited - old(budget.visited)
      && |next| <= |pending| - 1 + (budget.visited - old(budget.visited))
    ensures Quiet(host.world, fs) && old(budget.Valid()) ==>
      SameOutcome(fs, pending, old(budget.Remaining()), old(host.visits), next, budget.Remaining(), host.visits, err)
  {
    next := [];
    var cancelled := host.Cancelled();
    if cancelled {
      return next, [Cancelled];
    }
    var last := |pending| - 1;
    var directory := pending[last];
    ghost var quiet := Quiet(host.world, fs) && budget.Valid();
    var children;
    children, err := ReadDirectory(host, budget, directory, fs);
    if quiet {
      assert pending[..last] + [directory] == pending;
      StepKeepsOutcome(fs, pending[..last], directory, old(budget.Remaining()), old(host.visits), host.visits, children, err);
    }
    if err == [] {
      next := pending[..last] + children;
    }
  }

  /**
    The stack loop. It ends because every step either pops a directory or spends
    budget on its children: the shape of the tree plays no part.
  */
  method WalkDirectories(host: Host, budget: EntryBudget, root: Path, ghost fs: FileSystem) returns (err: Error)
    modifies host`clock, host`visits, host`readers, host`delivered, host`pulled, host`faults, budget
    ensures err == [] ==> host.faults == old(host.faults)
    ensures old(host.readers) <= host.readers && ClosedOnce(host.readers, |old(host.readers)|)
    ensures 0 <= |host.visits| - |old(host.visits)| == budget.visited - old(budget.visited) <= old(budget.Remaining())
    ensures HonoursCount(host.world) ==> host.pulled - old(host.pulled) <= old(budget.Remaining()) + 1
    ensures Quiet(host.world, fs) && old(budget.Valid()) ==>
      var outcome := Walk(fs, [root], old(budget.Remaining()));
      && err == (if outcome.ok then [] else [LimitExceeded])
      && host.visits == old(host.visits) + outcome.visits
  {
    var pending := [root];
    err := [];
    ghost var quiet := Quiet(host.world, fs) && budget.Valid();
    while |pending| > 0
      invariant host.faults == old(host.faults)
      invariant err == []
      invariant old(host.readers) <= host.readers && ClosedOnce(host.readers, |old(host.readers)|)
      invariant 0 <= |host.visits| - |old(host.visits)| == budget.visited - old(budget.visited) <= old(budget.Remaining())
      invariant host.pulled - old(host.pulled) == budget.visited - old(budget.visited)
      invariant quiet ==> SameOutcome(fs, [root], old(budget.Remaining()), old(host.visits),
                                      pending, budget.Remaining(), host.visits, [])
      decreases budget.Remaining() + |pending|
    {
      pending, err := ReadTopDirectory(host, budget, pending, fs);
      if err != [] {
        return err;
      }
    }
  }

  method VisitRoot(host: Host, budget: EntryBudget, root: Path, ghost fs: FileSystem)
    returns (descend: bool, err: Error, ghost entry: Entry)
    modifies host`clock, host`visits, host`faults, budget
    ensures err == [] ==> host.faults == old(host.faults)
    ensures 0 <= |host.visits| - |old(host.visits)| == budget.visited - old(budget.visited) <= old(budget.Remaining())
    ensures err == [] ==> host.visits == old(host.visits) + [Visit(root, entry)]
    ensures host.world.cancelled(old(host.clock) + 1) ==> err == [Cancelled] && host.visits == old(host.visits)
    ensures !host.world.cancelled(old(host.clock) + 1) && host.world.lstat(old(host.clock)).None? ==>
      err == [LstatFailed] && host.visits == old(host.visits)
    ensures err == [] ==> host.world.lstat(old(host.clock)) == Some(entry)
    ensures err == [] ==> descend == (entry.isDir && host.world.visit(old(host.clock) + 2, root, entry).action != SkipSubtree)
    ensures Quiet(host.world, fs) && old(budget.Valid()) ==>
      if old(budget.Remaining()) == 0 then err == [LimitExceeded]
      else err == [] && entry == fs.rootEntry && descend == Descends(fs, root, fs.rootEntry)
  {
    var info := host.Lstat();
    entry := Entry("", false);
    var cancelled := host.Cancelled();
    if cancelled {
      return false, [Cancelled], entry;
    }
    if info.None? {
      return false, [LstatFailed], entry;
    }
    entry := info.value;
    descend, err := VisitEntry(host, budget, root, info.value, fs);
  }

  /**
    `walkArtifactTreeWithOpener`. In every world: the walk ends, charges the budget
    once per visit and never beyond its limit, pulls no more entries than the budget
    allowed when it began, closes every reader exactly once, and succeeds only if no
    answer was a failure, a cancellation or nonsense. On a quiet host it
    succeeds exactly when the tree fits, having visited each entry exactly once, and
    otherwise reports the exceeded limit.
  */
  method WalkArtifactTree(host: Host, budget: EntryBudget, root: Path, validInputs: bool, ghost fs: FileSystem)
    returns (err: Error)
    modifies host`clock, host`visits, host`readers, host`delivered, host`pulled, host`faults, budget
    ensures err == [] ==> host.faults == old(host.faults)
    ensures old(host.readers) <= host.readers && ClosedOnce(host.readers, |old(host.readers)|)
    ensures 0 <= |host.visits| - |old(host.visits)| == budget.visited - old(budget.visited) <= old(budget.Remaining())
    ensures HonoursCount(host.world) ==> host.pulled - old(host.pulled) <= old(budget.Remaining())
    ensures host.world.cancelled(old(host.clock)) ==> err == [Cancelled]
    ensures !host.world.cancelled(old(host.clock)) && !(validInputs && old(budget.Valid())) ==> err == [InvalidWalk]
    ensures Quiet(host.world, fs) && validInputs && old(budget.Valid()) ==>
      && (err == [] <==> Fits(fs, root, old(budget.Remaining())))
      && (err != [] ==> err == [LimitExceeded] && budget.Remaining() == 0)
      && NothingUnderSkipped(fs, root, host.visits[|old(host.visits)|..])
      && (err == [] ==> VisitsTheWholeTree(fs, root, host.visits[|old(host.visits)|..])
                        && NothingMissed(fs, root, host.visits[|old(host.visits)|..]))
  {
    var cancelled := host.Cancelled();
    if cancelled {
      return [Cancelled];
    }
    if !validInputs || !budget.Valid() {
      return [InvalidWalk];
    }
    var descend;
    ghost var entry;
    descend, err, entry := VisitRoot(host, budget, root, fs);
    if err != [] {
      return err;
    }
    ghost var remaining := budget.Remaining();
    if descend {
      err := WalkDirectories(host, budget, root, fs);
    }
    if Quiet(host.world, fs) {
      CompletedWalk(fs, root, remaining + 1, old(host.visits), host.visits);
    }
  }
}
