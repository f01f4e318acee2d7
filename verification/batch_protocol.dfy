/**
  The goroutine protocol of the LLM checker and of the scanner: one goroutine per
  task, each writing its own slot of a result array, under an optional counting
  semaphore and a wait group, with cancellation possible at any moment. The model
  is a step relation; a run is any sequence of enabled steps, so a statement about
  all runs is a statement about all interleavings.
*/
module BatchProtocol {
  import opened Numbers
  import opened Wrappers

  const DEFAULT_LLM_CONCURRENCY: int := 2

  /** What one task leaves in its slot. The zero value is Go's zero batch result. */
  datatype TaskResult<+F> = TaskResult(findings: seq<F>, err: Option<string>)

  const CANCELLED: string := "cancelled"

  function ZeroResult<F>(): TaskResult<F> {
    TaskResult([], None)
  }

  function CancelledResult<F>(): TaskResult<F> {
    TaskResult([], Some(CANCELLED))
  }

  /** The number of tasks, and the capacity of the semaphore if there is one. */
  datatype Config = Config(tasks: nat, slots: Option<nat>)

  datatype Pc = NotStarted | Entered | Waiting | Working | Releasing | Leaving | Finished

  /** One goroutine and its slot: where it is, what the slot holds, how often it was written. */
  datatype Task<F> = Task(pc: Pc, result: TaskResult<F>, writes: nat)

  datatype State<F> = State(
    spawned: nat,      // goroutines started so far
    waited: bool,      // the main goroutine got past wg.Wait()
    cancelled: bool,   // ctx.Done() is closed
    sem: nat,          // tokens in the semaphore channel
    wg: nat,           // the wait group's counter
    tasks: seq<Task<F>>)

  datatype Step<F> =
    | Spawn
    | Cancel
    | Check(i: nat)                        // the context check before the semaphore
    | Acquire(i: nat)
    | GiveUp(i: nat)                       // cancelled while waiting for a slot
    | Finish(i: nat, r: TaskResult<F>)     // the analysis returns and its result is stored
    | Release(i: nat)
    | Leave(i: nat)                        // wg.Done()
    | Wait

  /** The capacity the constructor settles on: never below one. */
  function EffectiveConcurrency(requested: int): (c: nat)
    ensures c >= 1
    ensures requested >= 1 ==> c == requested
    ensures requested <= 0 ==> c == 2
  {
    if requested <= 0 then DEFAULT_LLM_CONCURRENCY else requested
  }

  // ---------- Steps ----------

  function Init<F>(c: Config): State<F> {
    State(0, false, false, 0, 0, seq(c.tasks, _ => Task(NotStarted, ZeroResult(), 0)))
  }

  predicate Shaped<F>(c: Config, s: State<F>) {
    |s.tasks| == c.tasks && s.spawned <= c.tasks
  }

  predicate At<F>(s: State<F>, i: nat, pc: Pc) {
    i < |s.tasks| && s.tasks[i].pc == pc
  }

  predicate Enabled<F>(c: Config, s: State<F>, step: Step<F>)
    requires Shaped(c, s)
  {
    match step
    case Spawn => s.spawned < c.tasks
    case Cancel => !s.cancelled
    case Check(i) => At(s, i, Entered)
    case Acquire(i) => At(s, i, Waiting) && c.slots.Some? && s.sem < c.slots.value
    case GiveUp(i) => At(s, i, Waiting) && s.cancelled
    case Finish(i, _) => At(s, i, Working)
    case Release(i) => At(s, i, Releasing) && s.sem > 0
    case Leave(i) => At(s, i, Leaving) && s.wg > 0
    case Wait => s.spawned == c.tasks && s.wg == 0 && !s.waited
  }

  function Goto<F>(s: State<F>, i: nat, pc: Pc): State<F>
    requires i < |s.tasks|
  {
    s.(tasks := s.tasks[i := s.tasks[i].(pc := pc)])
  }

  /** `results[i] = r`, and on to `pc`. */
  function Store<F>(s: State<F>, i: nat, r: TaskResult<F>, pc: Pc): State<F>
    requires i < |s.tasks|
  {
    s.(tasks := s.tasks[i := Task(pc, r, s.tasks[i].writes + 1)])
  }

  function Do<F>(c: Config, s: State<F>, step: Step<F>): (t: State<F>)
    requires Shaped(c, s) && Enabled(c, s, step)
    ensures Shaped(c, t)
  {
    match step
    case Spawn => Goto(s, s.spawned, Entered).(spawned := s.spawned + 1, wg := s.wg + 1)
    case Cancel => s.(cancelled := true)
    case Check(i) =>
      if s.cancelled then Store(s, i, CancelledResult(), Leaving)
      else Goto(s, i, if c.slots.Some? then Waiting else Working)
    case Acquire(i) => Goto(s, i, Working).(sem := s.sem + 1)
    case GiveUp(i) => Store(s, i, CancelledResult(), Leaving)
    case Finish(i, r) => Store(s, i, r, if c.slots.Some? then Releasing else Leaving)
    case Release(i) => Goto(s, i, Leaving).(sem := s.sem - 1)
    case Leave(i) => Goto(s, i, Finished).(wg := s.wg - 1)
    case Wait => s.(waited := true)
  }

  /** The state after a run, None when some step of it was not enabled. */
  function Exec<F>(c: Config, s: State<F>, run: seq<Step<F>>): (t: Option<State<F>>)
    requires Shaped(c, s)
    ensures t.Some? ==> Shaped(c, t.value)
    decreases run
  {
    if run == [] then Some(s)
    else if !Enabled(c, s, run[0]) then None
    else Exec(c, Do(c, s, run[0]), run[1..])
  }

  // ---------- Counting goroutines ----------

  function Holds(pc: Pc): nat { Bit(pc == Working || pc == Releasing) }
  function Active(pc: Pc): nat { Bit(pc != NotStarted && pc != Finished) }
  function Written(pc: Pc): nat { Bit(pc == Releasing || pc == Leaving || pc == Finished) }

  /** How many steps a goroutine is away from its end, at most. */
  function Rank(pc: Pc): nat {
    match pc
    case NotStarted => 6
    case Entered => 5
    case Waiting => 4
    case Working => 3
    case Releasing => 2
    case Leaving => 1
    case Finished => 0
  }

  function Sum<F>(tasks: seq<Task<F>>, weight: Pc -> nat): nat {
    if tasks == [] then 0 else Sum(tasks[..|tasks| - 1], weight) + weight(tasks[|tasks| - 1].pc)
  }

  lemma {:induction false} SumUpdate<F>(tasks: seq<Task<F>>, weight: Pc -> nat, i: nat, task: Task<F>)
    requires i < |tasks|
    ensures Sum(tasks[i := task], weight) + weight(tasks[i].pc) == Sum(tasks, weight) + weight(task.pc)
  {
    var n := |tasks| - 1;
    if i < n {
      assert tasks[i := task][..n] == tasks[..n][i := task];
      SumUpdate(tasks[..n], weight, i, task);
    } else {
      assert tasks[i := task][..n] == tasks[..n];
    }
  }

  lemma {:induction false} SumZero<F>(tasks: seq<Task<F>>, weight: Pc -> nat)
    ensures Sum(tasks, weight) == 0 <==> forall i :: 0 <= i < |tasks| ==> weight(tasks[i].pc) == 0
  {
    if tasks == [] {
    } else {
      SumZero(tasks[..|tasks| - 1], weight);
    }
  }

  // ---------- The invariant ----------

  predicate TaskInv<F>(c: Config, task: Task<F>, started: bool) {
    && (task.pc == NotStarted <==> !started)
    && task.writes == Written(task.pc)
    && (c.slots.None? ==> task.pc != Waiting && task.pc != Releasing)
  }

  /**
    The holders of a slot are exactly the tokens in the semaphore, which never
    exceed its capacity; the wait group counts the goroutines that started and have
    not finished; a slot has been written once if its goroutine is past its write,
    and never before.
  */
  ghost predicate Inv<F>(c: Config, s: State<F>) {
    && Shaped(c, s)
    && (forall i :: 0 <= i < c.tasks ==> TaskInv(c, s.tasks[i], i < s.spawned))
    && s.wg == Sum(s.tasks, Active)
    && (s.waited ==> s.spawned == c.tasks && s.wg == 0)
    && (c.slots.Some? ==> s.sem == Sum(s.tasks, Holds) <= c.slots.value)
  }

  lemma InvInit<F>(c: Config)
    ensures Inv(c, Init<F>(c))
  {
    var s := Init<F>(c);
    SumZero(s.tasks, Active);
    SumZero(s.tasks, Holds);
  }

  /** The goroutine whose program counter the step moves. */
  function Mover<F>(s: State<F>, step: Step<F>): Option<nat> {
    match step
    case Spawn => Some(s.spawned)
    case Cancel => None
    case Wait => None
    case Check(i) => Some(i)
    case Acquire(i) => Some(i)
    case GiveUp(i) => Some(i)
    case Finish(i, _) => Some(i)
    case Release(i) => Some(i)
    case Leave(i) => Some(i)
  }

  /** What a step that moves goroutine `i` does to the shared counters, seen from its own record. */
  ghost predicate Moves<F>(c: Config, s: State<F>, t: State<F>, i: nat) {
    && i < |s.tasks| == |t.tasks|
    && t.tasks == s.tasks[i := t.tasks[i]]
    && TaskInv(c, t.tasks[i], true)
    && t.wg == s.wg + Active(t.tasks[i].pc) - Active(s.tasks[i].pc)
    && t.spawned == (if i == s.spawned then i + 1 else s.spawned)
    && i <= s.spawned && t.spawned <= c.tasks
    && t.waited == s.waited && t.cancelled == s.cancelled
    && Rank(t.tasks[i].pc) < Rank(s.tasks[i].pc)
    && (s.waited ==> Active(s.tasks[i].pc) == 1 || i == s.spawned)
    && (c.slots.Some? ==>
          && t.sem == s.sem + Holds(t.tasks[i].pc) - Holds(s.tasks[i].pc)
          && t.sem <= c.slots.value)
  }

  lemma SpawnMoves<F>(c: Config, s: State<F>)
    requires Inv(c, s) && Enabled(c, s, Spawn)
    ensures Moves(c, s, Do(c, s, Spawn), s.spawned)
  {
    assert TaskInv(c, s.tasks[s.spawned], false);
  }

  /** The steps of a goroutine up to its analysis. */
  lemma EnteringMoves<F>(c: Config, s: State<F>, step: Step<F>, i: nat)
    requires Inv(c, s) && Enabled(c, s, step) && step in {Check(i), Acquire(i), GiveUp(i)}
    ensures Moves(c, s, Do(c, s, step), i)
  {
    assert TaskInv(c, s.tasks[i], i < s.spawned);
  }

  /** The steps of a goroutine after its analysis. */
  lemma LeavingMoves<F>(c: Config, s: State<F>, step: Step<F>, i: nat)
    requires Inv(c, s) && Enabled(c, s, step) && ((step.Finish? && step.i == i) || step in {Release(i), Leave(i)})
    ensures Moves(c, s, Do(c, s, step), i)
  {
    assert TaskInv(c, s.tasks[i], i < s.spawned);
  }

  lemma EveryMove<F>(c: Config, s: State<F>, step: Step<F>, i: nat)
    requires Inv(c, s) && Enabled(c, s, step) && Mover(s, step) == Some(i)
    ensures Moves(c, s, Do(c, s, step), i)
  {
    match step
    case Spawn => SpawnMoves(c, s);
    case Check(_) => EnteringMoves(c, s, step, i);
    case Acquire(_) => EnteringMoves(c, s, step, i);
    case GiveUp(_) => EnteringMoves(c, s, step, i);
    case Finish(_, _) => LeavingMoves(c, s, step, i);
    case Release(_) => LeavingMoves(c, s, step, i);
    case Leave(_) => LeavingMoves(c, s, step, i);
  }

  lemma MoveKeepsInv<F>(c: Config, s: State<F>, t: State<F>, i: nat)
    requires Inv(c, s) && Moves(c, s, t, i)
    ensures Inv(c, t)
  {
    SumUpdate(s.tasks, Active, i, t.tasks[i]);
    SumUpdate(s.tasks, Holds, i, t.tasks[i]);
    SumZero(s.tasks, Active);
  }

  lemma InvStep<F>(c: Config, s: State<F>, step: Step<F>)
    requires Inv(c, s) && Enabled(c, s, step)
    ensures Inv(c, Do(c, s, step))
  {
    match Mover(s, step)
    case Some(i) =>
      EveryMove(c, s, step, i);
      MoveKeepsInv(c, s, Do(c, s, step), i);
    case None =>
  }

  lemma {:induction false} InvRun<F>(c: Config, s: State<F>, run: seq<Step<F>>)
    requires Inv(c, s) && Exec(c, s, run).Some?
    ensures Inv(c, Exec(c, s, run).value)
    decreases run
  {
    if run == [] {
    } else {
      InvStep(c, s, run[0]);
      InvRun(c, Do(c, s, run[0]), run[1..]);
    }
  }

  // ---------- Safety over all runs ----------

  /** A run from the start, over any number of tasks and in any interleaving. */
  ghost predicate Reaches<F>(c: Config, run: seq<Step<F>>, t: State<F>) {
    Exec(c, Init(c), run) == Some(t)
  }

  /** At every moment the slot holders equal the tokens, and both stay within the concurrency. */
  lemma SlotsNeverExceeded<F>(c: Config, run: seq<Step<F>>, t: State<F>)
    requires Reaches(c, run, t) && c.slots.Some?
    ensures Sum(t.tasks, Holds) == t.sem <= c.slots.value
  {
    InvInit<F>(c);
    InvRun(c, Init(c), run);
  }

  /** A goroutine touches nobody else's slot, and no slot is ever written twice. */
  lemma OnlyOwnSlotWrittenOnce<F>(c: Config, run: seq<Step<F>>, t: State<F>, step: Step<F>, j: nat)
    requires Reaches(c, run, t) && Enabled(c, t, step) && j < c.tasks
    ensures Mover(t, step) != Some(j) ==> Do(c, t, step).tasks[j] == t.tasks[j]
    ensures Do(c, t, step).tasks[j].result != t.tasks[j].result ==>
      t.tasks[j].writes == 0 && Do(c, t, step).tasks[j].writes == 1
  {
    InvInit<F>(c);
    InvRun(c, Init(c), run);
    InvStep(c, t, step);
    assert TaskInv(c, t.tasks[j], j < t.spawned);
    assert TaskInv(c, Do(c, t, step).tasks[j], j < Do(c, t, step).spawned);
  }

  /** When the wait returns, every goroutine has finished, wrote its slot once, and no token is left. */
  lemma WaitMeansAllDone<F>(c: Config, run: seq<Step<F>>, t: State<F>)
    requires Reaches(c, run, t) && t.waited
    ensures forall i :: 0 <= i < c.tasks ==> t.tasks[i].pc == Finished && t.tasks[i].writes == 1
    ensures c.slots.Some? ==> t.sem == 0
  {
    InvInit<F>(c);
    InvRun(c, Init(c), run);
    SumZero(t.tasks, Active);
    SumZero(t.tasks, Holds);
    forall i | 0 <= i < c.tasks
      ensures t.tasks[i].pc == Finished && t.tasks[i].writes == 1
    {
      assert TaskInv(c, t.tasks[i], i < t.spawned);
      assert Active(t.tasks[i].pc) == 0;
    }
  }

  // ---------- Progress and termination ----------

  /** Steps the program itself can take, as opposed to the canceller. */
  ghost predicate CanMove<F(!new)>(c: Config, s: State<F>)
    requires Shaped(c, s)
  {
    exists step: Step<F> :: !step.Cancel? && Enabled(c, s, step)
  }

  lemma OwnStep<F(!new)>(c: Config, t: State<F>, i: nat)
    requires Inv(c, t) && i < c.tasks && Active(t.tasks[i].pc) == 1 && t.tasks[i].pc != Waiting
    ensures CanMove(c, t)
  {
    SumZero(t.tasks, Active);
    SumZero(t.tasks, Holds);
    assert TaskInv(c, t.tasks[i], i < t.spawned);
    var step: Step<F> := match t.tasks[i].pc
      case Entered => Check(i)
      case Working => Finish(i, ZeroResult())
      case Releasing => Release(i)
      case _ => Leave(i);
    assert !step.Cancel? && Enabled(c, t, step);
  }

  lemma NextStep<F(!new)>(c: Config, t: State<F>)
    requires Inv(c, t) && !t.waited && c.slots != Some(0)
    ensures CanMove(c, t)
  {
    SumZero(t.tasks, Active);
    SumZero(t.tasks, Holds);
    if t.spawned < c.tasks {
      assert Enabled(c, t, Spawn);
    } else if t.wg == 0 {
      assert Enabled(c, t, Wait);
    } else if i :| 0 <= i < c.tasks && Active(t.tasks[i].pc) == 1 && t.tasks[i].pc != Waiting {
      OwnStep(c, t, i);
    } else {
      var i :| 0 <= i < c.tasks && Active(t.tasks[i].pc) != 0;
      assert Enabled(c, t, Acquire(i));
    }
  }

  /** No deadlock: until the wait returns, some goroutine (or the main one) can take a step. */
  lemma NoDeadlock<F(!new)>(c: Config, run: seq<Step<F>>, t: State<F>)
    requires Reaches(c, run, t) && !t.waited && c.slots != Some(0)
    ensures CanMove(c, t)
  {
    InvInit<F>(c);
    InvRun(c, Init(c), run);
    NextStep(c, t);
  }

  function Measure<F>(s: State<F>): nat {
    Sum(s.tasks, Rank) + Bit(!s.waited) + Bit(!s.cancelled)
  }

  lemma StepDecreases<F>(c: Config, s: State<F>, step: Step<F>)
    requires Inv(c, s) && Enabled(c, s, step)
    ensures Measure(Do(c, s, step)) < Measure(s)
  {
    match Mover(s, step)
    case Some(i) =>
      EveryMove(c, s, step, i);
      SumUpdate(s.tasks, Rank, i, Do(c, s, step).tasks[i]);
    case None =>
  }

  lemma {:induction false} RunIsBounded<F>(c: Config, s: State<F>, run: seq<Step<F>>)
    requires Inv(c, s) && Exec(c, s, run).Some?
    ensures |run| <= Measure(s)
    decreases run
  {
    if run == [] {
    } else {
      InvStep(c, s, run[0]);
      StepDecreases(c, s, run[0]);
      RunIsBounded(c, Do(c, s, run[0]), run[1..]);
    }
  }

  lemma {:induction false} SumOfEqual<F>(n: nat, task: Task<F>)
    ensures Sum(seq(n, _ => task), Rank) == n * Rank(task.pc)
  {
    if n == 0 {
    } else {
      assert seq(n, _ => task)[..n - 1] == seq(n - 1, _ => task);
      SumOfEqual(n - 1, task);
    }
  }

  /**
    Every run ends: none is longer than six steps per task plus two, and one that
    cannot be continued has passed the wait.
  */
  lemma EveryRunEnds<F(!new)>(c: Config, run: seq<Step<F>>, t: State<F>)
    requires Reaches(c, run, t)
    ensures |run| <= 6 * c.tasks + 2
    ensures c.slots != Some(0) && !CanMove(c, t) ==> t.waited
  {
    InvInit<F>(c);
    RunIsBounded(c, Init(c), run);
    SumOfEqual(c.tasks, Task(NotStarted, ZeroResult<F>(), 0));
    if c.slots != Some(0) && !t.waited {
      NoDeadlock(c, run, t);
    }
  }

  /** The LLM checker's batches under its semaphore. */
  function LlmConfig(batches: nat, requestedConcurrency: int): Config {
    Config(batches, Some(EffectiveConcurrency(requestedConcurrency)))
  }

  /** The scanner's checkers: one goroutine each, no semaphore. */
  function ScannerConfig(checkers: nat): Config {
    Config(checkers, None)
  }

  /**
    Whatever concurrency is requested, every run of the LLM checker is finite, cannot
    get stuck before the wait returns, and leaves no slot taken when it does.
  */
  lemma EveryLlmRunEnds<F(!new)>(batches: nat, requested: int, run: seq<Step<F>>, t: State<F>)
    requires Reaches(LlmConfig(batches, requested), run, t)
    ensures |run| <= 6 * batches + 2
    ensures t.sem <= EffectiveConcurrency(requested)
    ensures !CanMove(LlmConfig(batches, requested), t) ==> t.waited
    ensures t.waited ==> t.sem == 0 && forall i :: 0 <= i < batches ==> t.tasks[i].writes == 1
  {
    EveryRunEnds(LlmConfig(batches, requested), run, t);
    SlotsNeverExceeded(LlmConfig(batches, requested), run, t);
    if t.waited {
      WaitMeansAllDone(LlmConfig(batches, requested), run, t);
    }
  }

  // ---------- Every schedule gives the same result ----------

  /** Each task's analysis, whenever it happens, returns the task's fixed answer. */
  predicate Answered<F(==)>(answers: seq<TaskResult<F>>, run: seq<Step<F>>) {
    forall k :: 0 <= k < |run| && run[k].Finish? ==> run[k].i < |answers| && run[k].r == answers[run[k].i]
  }

  predicate Uncancelled<F>(run: seq<Step<F>>) {
    forall k :: 0 <= k < |run| ==> !run[k].Cancel?
  }

  function Results<F>(s: State<F>): seq<TaskResult<F>> {
    seq(|s.tasks|, i requires 0 <= i < |s.tasks| => s.tasks[i].result)
  }

  /** A written slot holds its task's answer, or a cancellation if there was one. */
  ghost predicate SlotsFollow<F>(answers: seq<TaskResult<F>>, s: State<F>) {
    && |s.tasks| == |answers|
    && forall i :: 0 <= i < |s.tasks| && s.tasks[i].writes > 0 ==>
         s.tasks[i].result == answers[i] || (s.cancelled && s.tasks[i].result == CancelledResult())
  }

  lemma {:induction false} SlotsFollowRun<F>(c: Config, answers: seq<TaskResult<F>>, s: State<F>, run: seq<Step<F>>)
    requires Shaped(c, s) && SlotsFollow(answers, s) && Answered(answers, run) && Exec(c, s, run).Some?
    ensures SlotsFollow(answers, Exec(c, s, run).value)
    ensures Uncancelled(run) ==> Exec(c, s, run).value.cancelled == s.cancelled
    decreases run
  {
    if run == [] {
    } else {
      var t := Do(c, s, run[0]);
      assert SlotsFollow(answers, t);
      SlotsFollowRun(c, answers, t, run[1..]);
    }
  }

  /** With a cancellation anywhere in the run, every slot ends as its answer or as cancelled. */
  lemma EachSlotAnsweredOrCancelled<F>(c: Config, answers: seq<TaskResult<F>>, run: seq<Step<F>>, t: State<F>, i: nat)
    requires |answers| == c.tasks && Answered(answers, run)
    requires Reaches(c, run, t) && t.waited && i < c.tasks
    ensures Results(t)[i] == answers[i] || (t.cancelled && Results(t)[i] == CancelledResult())
  {
    SlotsFollowRun(c, answers, Init(c), run);
    WaitMeansAllDone(c, run, t);
  }

  // ---------- What a slot holds, whatever the schedule ----------

  /** The analysis of task `i` took place in the run. */
  ghost predicate Ran<F>(run: seq<Step<F>>, i: nat) {
    exists k :: 0 <= k < |run| && run[k].Finish? && run[k].i == i
  }

  /** An error and no findings, once the slot is written. */
  predicate FailedIfWritten<F>(task: Task<F>) {
    task.writes > 0 ==> task.result.err.Some? && task.result.findings == []
  }

  lemma {:induction false} NeverRanFails<F>(c: Config, s: State<F>, run: seq<Step<F>>, i: nat)
    requires Shaped(c, s) && i < c.tasks && FailedIfWritten(s.tasks[i]) && Exec(c, s, run).Some? && !Ran(run, i)
    ensures FailedIfWritten(Exec(c, s, run).value.tasks[i])
    decreases run
  {
    if run == [] {
    } else {
      assert !(run[0].Finish? && run[0].i == i);
      assert !Ran(run[1..], i) by {
        forall k | 0 <= k < |run[1..]|
          ensures !(run[1..][k].Finish? && run[1..][k].i == i)
        {
          assert run[1..][k] == run[k + 1];
        }
      }
      NeverRanFails(c, Do(c, s, run[0]), run[1..], i);
    }
  }

  /** Once written, a slot is never changed. */
  lemma {:induction false} WrittenSlotIsKept<F>(c: Config, s: State<F>, run: seq<Step<F>>, i: nat)
    requires Inv(c, s) && i < c.tasks && s.tasks[i].writes > 0 && Exec(c, s, run).Some?
    ensures Exec(c, s, run).value.tasks[i].result == s.tasks[i].result
    decreases run
  {
    if run == [] {
    } else {
      var t := Do(c, s, run[0]);
      InvStep(c, s, run[0]);
      assert TaskInv(c, s.tasks[i], i < s.spawned) && TaskInv(c, t.tasks[i], i < t.spawned);
      WrittenSlotIsKept(c, t, run[1..], i);
    }
  }

  /** A slot whose analysis took place ends with what it returned, cancelled or not. */
  lemma {:induction false} SlotHoldsItsAnswer<F>(c: Config, s: State<F>, run: seq<Step<F>>, k: nat)
    requires Inv(c, s) && Exec(c, s, run).Some? && k < |run| && run[k].Finish?
    ensures run[k].i < c.tasks && Exec(c, s, run).value.tasks[run[k].i].result == run[k].r
    decreases run
  {
    InvStep(c, s, run[0]);
    if k == 0 {
      WrittenSlotIsKept(c, Do(c, s, run[0]), run[1..], run[0].i);
    } else {
      SlotHoldsItsAnswer(c, Do(c, s, run[0]), run[1..], k - 1);
    }
  }

  /**
    After every run, cancelled anywhere: each slot holds what its own analysis returned,
    or an error and no findings if that never took place.
  */
  lemma {:induction false} SlotsExact<F>(c: Config, run: seq<Step<F>>, t: State<F>)
    requires Reaches(c, run, t) && t.waited
    ensures |Results(t)| == c.tasks
    ensures forall k :: 0 <= k < |run| && run[k].Finish? ==> run[k].i < c.tasks && Results(t)[run[k].i] == run[k].r
    ensures forall i: nat :: i < c.tasks && !Ran(run, i) ==> Results(t)[i].err.Some? && Results(t)[i].findings == []
  {
    InvInit<F>(c);
    forall k | 0 <= k < |run| && run[k].Finish?
      ensures run[k].i < c.tasks && Results(t)[run[k].i] == run[k].r
    {
      SlotHoldsItsAnswer(c, Init(c), run, k);
    }
    forall i: nat | i < c.tasks && !Ran(run, i)
      ensures Results(t)[i].err.Some? && Results(t)[i].findings == []
    {
      NeverRanFails(c, Init(c), run, i);
      WaitMeansAllDone(c, run, t);
    }
  }

  lemma {:induction false} WrittenNeverRuns<F>(c: Config, s: State<F>, run: seq<Step<F>>, i: nat)
    requires Inv(c, s) && i < c.tasks && s.tasks[i].writes > 0 && Exec(c, s, run).Some?
    ensures !Ran(run, i)
    decreases run
  {
    if run == [] {
    } else {
      var t := Do(c, s, run[0]);
      InvStep(c, s, run[0]);
      assert TaskInv(c, s.tasks[i], i < s.spawned) && TaskInv(c, t.tasks[i], i < t.spawned);
      assert !(run[0].Finish? && run[0].i == i);
      WrittenNeverRuns(c, t, run[1..], i);
      forall k | 0 <= k < |run|
        ensures !(run[k].Finish? && run[k].i == i)
      {
        assert k > 0 ==> run[k] == run[1..][k - 1];
      }
    }
  }

  /** A goroutine that finds the context done before the semaphore never analyses anything. */
  lemma {:induction false} DoneContextNeverRuns<F>(c: Config, s: State<F>, i: nat, rest: seq<Step<F>>)
    requires Inv(c, s) && s.cancelled && Enabled(c, s, Check(i)) && Exec(c, Do(c, s, Check(i)), rest).Some?
    ensures !Ran(rest, i)
  {
    InvStep(c, s, Check(i));
    assert TaskInv(c, s.tasks[i], i < s.spawned);
    WrittenNeverRuns(c, Do(c, s, Check(i)), rest, i);
  }

  /** The step leaves task `i` behind with an error and takes no slot. */
  ghost predicate EscapesWithError<F>(c: Config, s: State<F>, step: Step<F>, i: nat)
    requires Shaped(c, s)
  {
    && Enabled(c, s, step)
    && var t := Do(c, s, step);
       At(t, i, Leaving) && t.sem == s.sem && t.tasks[i].result.err.Some? && t.tasks[i].result.findings == []
  }

  /** After a cancellation a goroutine still waiting, or not yet waiting, for a slot can leave without one. */
  lemma CancelledTaskNeedsNoSlot<F(!new)>(c: Config, s: State<F>, i: nat)
    requires Shaped(c, s) && s.cancelled && (At(s, i, Entered) || At(s, i, Waiting))
    ensures exists step :: EscapesWithError(c, s, step, i)
  {
    assert EscapesWithError(c, s, if At(s, i, Entered) then Check(i) else GiveUp(i), i);
  }

  /** Without cancellation the result array is the same after every schedule. */
  lemma ScheduleIndependent<F>(c: Config, answers: seq<TaskResult<F>>, run: seq<Step<F>>, t: State<F>)
    requires |answers| == c.tasks && Answered(answers, run) && Uncancelled(run)
    requires Reaches(c, run, t) && t.waited
    ensures Results(t) == answers
  {
    SlotsFollowRun(c, answers, Init(c), run);
    WaitMeansAllDone(c, run, t);
  }

  // ---------- Collecting the slots ----------

  function AllFindings<F>(results: seq<TaskResult<F>>): seq<F> {
    if results == [] then []
    else AllFindings(results[..|results| - 1]) + results[|results| - 1].findings
  }

  /** The failed slots in index order, with their errors. */
  function Failures<F>(results: seq<TaskResult<F>>): seq<(nat, string)> {
    if results == [] then []
    else
      var n := |results| - 1;
      Failures(results[..n]) + match results[n].err case Some(e) => [(n, e)] case None => []
  }

  method Collect<F>(results: seq<TaskResult<F>>) returns (findings: seq<F>, errs: seq<(nat, string)>)
    ensures findings == AllFindings(results)
    ensures errs == Failures(results)
  {
    findings, errs := [], [];
    for i := 0 to |results|
      invariant findings == AllFindings(results[..i])
      invariant errs == Failures(results[..i])
    {
      assert results[..i + 1][..i] == results[..i];
      if results[i].err.Some? {
        errs := errs + [(i, results[i].err.value)];
      }
      findings := findings + results[i].findings;
    }
    assert results[..|results|] == results;
  }

  datatype LlmError = AllBatchesFailed(errs: seq<(nat, string)>) | SomeBatchesFailed(errs: seq<(nat, string)>)

  lemma {:induction false} FailuresMember<F>(results: seq<TaskResult<F>>, i: nat, e: string)
    ensures (i, e) in Failures(results) <==> i < |results| && results[i].err == Some(e)
  {
    if results == [] {
    } else {
      FailuresMember(results[..|results| - 1], i, e);
    }
  }

  lemma {:induction false} FailuresExact<F>(results: seq<TaskResult<F>>)
    ensures Failures(results) != [] <==> exists i :: 0 <= i < |results| && results[i].err.Some?
    ensures forall f :: f in Failures(results) <==> f.0 < |results| && results[f.0].err == Some(f.1)
  {
    forall f
      ensures f in Failures(results) <==> f.0 < |results| && results[f.0].err == Some(f.1)
    {
      FailuresMember(results, f.0, f.1);
    }
    if Failures(results) != [] {
      assert Failures(results)[0] in Failures(results);
    }
    if i :| 0 <= i < |results| && results[i].err.Some? {
      FailuresMember(results, i, results[i].err.value);
    }
  }

  /** What the LLM checker returns once the wait is over. */
  method LlmOutcome<F>(results: seq<TaskResult<F>>) returns (findings: seq<F>, err: Option<LlmError>)
    ensures findings == AllFindings(results)
    ensures err.Some? <==> exists i :: 0 <= i < |results| && results[i].err.Some?
    ensures err.Some? ==> err.value.errs == Failures(results) && (err.value.AllBatchesFailed? <==> findings == [])
  {
    var errs;
    findings, errs := Collect(results);
    FailuresExact(results);
    if |errs| > 0 {
      if |findings| == 0 {
        return [], Some(AllBatchesFailed(errs));
      }
      return findings, Some(SomeBatchesFailed(errs));
    }
    err := None;
  }

  lemma {:induction false} NoFindings<F>(results: seq<TaskResult<F>>)
    requires forall k :: 0 <= k < |results| ==> results[k].findings == []
    ensures AllFindings(results) == []
  {
    if results == [] {
    } else {
      NoFindings(results[..|results| - 1]);
    }
  }

  /** When some task never ran, a failure is listed; when none ran, there are no findings either. */
  lemma {:induction false} CancellationIsReported<F>(c: Config, run: seq<Step<F>>, t: State<F>, i: nat)
    requires Reaches(c, run, t) && t.waited && i < c.tasks && !Ran(run, i)
    ensures exists e :: (i, e) in Failures(Results(t))
    ensures (forall j: nat :: j < c.tasks ==> !Ran(run, j)) ==> AllFindings(Results(t)) == []
  {
    SlotsExact(c, run, t);
    FailuresMember(Results(t), i, Results(t)[i].err.value);
    if forall j: nat :: j < c.tasks ==> !Ran(run, j) {
      NoFindings(Results(t));
    }
  }

  lemma {:induction false} AllFindingsConcat<F>(a: seq<TaskResult<F>>, b: seq<TaskResult<F>>)
    ensures AllFindings(a + b) == AllFindings(a) + AllFindings(b)
  {
    if b == [] {
      assert a + b == a;
    } else {
      assert (a + b)[..|a + b| - 1] == a + b[..|b| - 1];
      AllFindingsConcat(a, b[..|b| - 1]);
    }
  }

  /** The findings of slot `i`, failed or not, stand between those of the slots before and behind it. */
  lemma {:induction false} FindingsInSlotOrder<F>(results: seq<TaskResult<F>>, i: nat)
    requires i < |results|
    ensures AllFindings(results) == AllFindings(results[..i]) + results[i].findings + AllFindings(results[i + 1..])
    ensures AllFindings(results[..0]) == []
  {
    var one := [results[i]];
    assert results == results[..i] + one + results[i + 1..];
    AllFindingsConcat(results[..i] + one, results[i + 1..]);
    AllFindingsConcat(results[..i], one);
    assert one[..0] == [] && AllFindings(one) == results[i].findings;
  }

  /** The failed slots are listed in increasing order, each once. */
  lemma {:induction false} FailuresInSlotOrder<F>(results: seq<TaskResult<F>>, j: nat, k: nat)
    requires j < k < |Failures(results)|
    ensures Failures(results)[j].0 < Failures(results)[k].0 < |results|
  {
    var n := |results| - 1;
    var front := Failures(results[..n]);
    if k < |front| {
      FailuresInSlotOrder(results[..n], j, k);
    } else {
      assert front[j] in front;
      FailuresMember(results[..n], front[j].0, front[j].1);
    }
  }
}
