/**
  The LLM check from the scripts to its result: prepared, batched, analysed by the
  goroutines in any schedule, and collected.
*/
module LlmCheck {
  import opened BatchProtocol
  import opened Batching
  import opened Text
  import opened Wrappers

  /** What the completer answers for each batch. */
  function Answers<F>(batches: seq<seq<Script>>, analyze: seq<Script> -> TaskResult<F>): (r: seq<TaskResult<F>>)
    ensures |r| == |batches|
  {
    seq(|batches|, k requires 0 <= k < |batches| => analyze(batches[k]))
  }

  /** An uncancelled run over the batches, past its wait. */
  ghost predicate Completed<F>(batches: seq<seq<Script>>, analyze: seq<Script> -> TaskResult<F>, requested: int,
                               run: seq<Step<F>>, t: State<F>)
  {
    && Reaches(LlmConfig(|batches|, requested), run, t) && t.waited
    && Uncancelled(run) && Answered(Answers(batches, analyze), run)
  }

  /**
    What `Check` returns after any uncancelled schedule: the findings of all batches in
    batch order, and an error naming exactly the batches that failed.
  */
  method FinishCheck<F>(batches: seq<seq<Script>>, ghost analyze: seq<Script> -> TaskResult<F>, ghost requested: int,
                        ghost run: seq<Step<F>>, t: State<F>)
    returns (findings: seq<F>, err: Option<LlmError>)
    requires Completed(batches, analyze, requested, run, t)
    ensures findings == AllFindings(Answers(batches, analyze))
    ensures err.Some? <==> exists k :: 0 <= k < |batches| && analyze(batches[k]).err.Some?
    ensures err.Some? ==> forall f :: f in err.value.errs <==> f.0 < |batches| && analyze(batches[f.0]).err == Some(f.1)
  {
    ghost var answers := Answers(batches, analyze);
    ScheduleIndependent(LlmConfig(|batches|, requested), answers, run, t);
    assert Results(t) == answers;
    findings, err := LlmOutcome(Results(t));
    FailuresExact(answers);
    assert forall k :: 0 <= k < |batches| ==> answers[k] == analyze(batches[k]);
  }

  /** The findings of scripts analysed one by one, in order. */
  function OneByOne<F>(scripts: seq<Script>, findingsOf: Script -> seq<F>): seq<F> {
    if scripts == [] then [] else findingsOf(scripts[0]) + OneByOne(scripts[1..], findingsOf)
  }

  lemma {:induction false} OneByOneConcat<F>(a: seq<Script>, b: seq<Script>, findingsOf: Script -> seq<F>)
    ensures OneByOne(a + b, findingsOf) == OneByOne(a, findingsOf) + OneByOne(b, findingsOf)
  {
    if a == [] {
      assert a + b == b;
    } else {
      assert (a + b)[1..] == a[1..] + b;
      OneByOneConcat(a[1..], b, findingsOf);
    }
  }

  lemma {:induction false} FlattenSplit(batches: seq<seq<Script>>)
    requires batches != []
    ensures Flatten(batches) == Flatten(batches[..|batches| - 1]) + batches[|batches| - 1]
  {
    FlattenSnoc(batches[..|batches| - 1], batches[|batches| - 1]);
    assert batches == batches[..|batches| - 1] + [batches[|batches| - 1]];
  }

  lemma {:induction false} FindingsOfBatches<F>(batches: seq<seq<Script>>, analyze: seq<Script> -> TaskResult<F>,
                                                findingsOf: Script -> seq<F>)
    requires forall batch :: batch in batches ==> analyze(batch).findings == OneByOne(batch, findingsOf)
    ensures AllFindings(Answers(batches, analyze)) == OneByOne(Flatten(batches), findingsOf)
  {
    if batches == [] {
    } else {
      var front, last := batches[..|batches| - 1], batches[|batches| - 1];
      assert Answers(batches, analyze)[..|front|] == Answers(front, analyze);
      FindingsOfBatches(front, analyze, findingsOf);
      FlattenSplit(batches);
      OneByOneConcat(Flatten(front), last, findingsOf);
    }
  }

  /**
    End to end: when the answer for a batch is that for its scripts, neither the split
    into batches, nor the concurrency, nor the schedule shows in the findings. They are
    those of the prepared scripts, one by one and in order.
  */
  lemma BatchingIsInvisible<F>(scripts: seq<Script>, blank: Bytes -> bool, batches: seq<seq<Script>>,
                               analyze: seq<Script> -> TaskResult<F>, findingsOf: Script -> seq<F>, requested: int,
                               run: seq<Step<F>>, t: State<F>)
    requires Flatten(batches) == Prepared(scripts, blank)
    requires forall batch :: batch in batches ==> analyze(batch).findings == OneByOne(batch, findingsOf)
    requires Completed(batches, analyze, requested, run, t)
    ensures AllFindings(Results(t)) == OneByOne(Prepared(scripts, blank), findingsOf)
  {
    ScheduleIndependent(LlmConfig(|batches|, requested), Answers(batches, analyze), run, t);
    FindingsOfBatches(batches, analyze, findingsOf);
  }
}
