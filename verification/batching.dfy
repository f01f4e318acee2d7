/**
  How the LLM checker prepares scripts and groups them into batches: a greedy
  splitter under two simultaneous limits, proved optimal among all ways to cut the
  same list into consecutive batches.
*/
module Batching {
  import opened Selection
  import opened Text

  const MAX_BATCH_CHARS: nat := 6000
  const MAX_SCRIPTS_PER_BATCH: nat := 5
  const MAX_SCRIPT_CHARS: nat := 4000

  /** A script reference; `content` is its resolved content, `origin` everything else about it. */
  datatype Script = Script(origin: string, content: Bytes)

  // ---------- Preparation ----------

  /** The marker "\\n[TRUNCATED at 4000 chars]" as bytes. */
  const TRUNCATION_MARKER: Bytes :=
    [10, 91, 84, 82, 85, 78, 67, 65, 84, 69, 68, 32, 97, 116, 32, 52, 48, 48, 48, 32, 99, 104, 97, 114, 115, 93]

  /** The marker's text, character by character. */
  lemma MarkerText()
    ensures var text := "\n[TRUNCATED at 4000 chars]";
      |TRUNCATION_MARKER| == |text| && forall i :: 0 <= i < |text| ==> TRUNCATION_MARKER[i] as int == text[i] as int
  {
  }

  function TruncateScript(content: Bytes): (r: (Bytes, bool))
    ensures r.1 <==> |content| > 4000
    ensures !r.1 ==> r.0 == content
    ensures r.1 ==> |r.0| == 4026 && r.0[..4000] == content[..4000] && r.0[4000..] == TRUNCATION_MARKER
  {
    if |content| <= MAX_SCRIPT_CHARS then (content, false)
    else (content[..MAX_SCRIPT_CHARS] + TRUNCATION_MARKER, true)
  }

  /** The scripts that are not blank, in order, each truncated. `blank` is the test "only white space". */
  function Prepared(scripts: seq<Script>, blank: Bytes -> bool): seq<Script> {
    if scripts == [] then []
    else
      var s := scripts[|scripts| - 1];
      Prepared(scripts[..|scripts| - 1], blank)
      + if blank(s.content) then [] else [s.(content := TruncateScript(s.content).0)]
  }

  /** The scripts with something to analyse, each as often and in order, with their contents truncated. */
  ghost predicate KeepsNonBlank(result: seq<Script>, scripts: seq<Script>, blank: Bytes -> bool) {
    IsImage(result, scripts, (s: Script) => !blank(s.content), (s: Script) => Script(s.origin, TruncateScript(s.content).0))
  }

  lemma {:induction false} PreparedExact(scripts: seq<Script>, blank: Bytes -> bool)
    ensures KeepsNonBlank(Prepared(scripts, blank), scripts, blank)
  {
    var keep := (s: Script) => !blank(s.content);
    var truncated := (s: Script) => Script(s.origin, TruncateScript(s.content).0);
    if scripts == [] {
      EmptyImage(keep, truncated);
    } else {
      var front, s := scripts[..|scripts| - 1], scripts[|scripts| - 1];
      assert scripts == front + [s];
      PreparedExact(front, blank);
      ImageNext(Prepared(front, blank), front, s, keep, truncated);
    }
  }

  method PrepareScripts(scripts: seq<Script>, blank: Bytes -> bool) returns (result: seq<Script>)
    ensures result == Prepared(scripts, blank)
    ensures KeepsNonBlank(result, scripts, blank)
    ensures forall s :: s in result ==> |s.content| <= 6000
  {
    result := [];
    for i := 0 to |scripts|
      invariant result == Prepared(scripts[..i], blank)
      invariant forall s :: s in result ==> |s.content| <= MAX_BATCH_CHARS
    {
      assert scripts[..i + 1][..i] == scripts[..i];
      if blank(scripts[i].content) {
        continue;
      }
      result := result + [scripts[i].(content := TruncateScript(scripts[i].content).0)];
    }
    assert scripts[..|scripts|] == scripts;
    PreparedExact(scripts, blank);
  }

  // ---------- Batches ----------

  function Chars(batch: seq<Script>): nat {
    if batch == [] then 0 else Chars(batch[..|batch| - 1]) + |batch[|batch| - 1].content|
  }

  function Flatten(batches: seq<seq<Script>>): seq<Script> {
    if batches == [] then [] else batches[0] + Flatten(batches[1..])
  }

  /** Within both limits; a single script that alone exceeds the character limit still gets a batch. */
  predicate Fits(batch: seq<Script>) {
    |batch| <= 5 && (Chars(batch) <= 6000 || |batch| <= 1)
  }

  /** A way to cut `scripts` into consecutive batches within the limits. */
  predicate Split(scripts: seq<Script>, batches: seq<seq<Script>>) {
    Flatten(batches) == scripts && forall k :: 0 <= k < |batches| ==> Fits(batches[k])
  }

  /** No batch could have taken the first script of the next one. */
  ghost predicate Greedy(batches: seq<seq<Script>>) {
    && (forall k :: 0 <= k < |batches| ==> batches[k] != [])
    && (forall j, k :: 0 <= j && j + 1 == k < |batches| ==> !Fits(batches[j] + [batches[k][0]]))
  }

  /** Closed batches and the current one make up the scripts seen so far, greedily. */
  ghost predicate Grouping(done: seq<Script>, batches: seq<seq<Script>>, current: seq<Script>) {
    && Flatten(batches) + current == done
    && Fits(current) && (forall k :: 0 <= k < |batches| ==> Fits(batches[k]))
    && if done == [] then batches == [] && current == [] else current != [] && Greedy(batches + [current])
  }

  lemma OneLonger(scripts: seq<Script>, i: nat)
    requires i < |scripts|
    ensures scripts[..i + 1] == scripts[..i] + [scripts[i]]
  {
  }

  lemma CloseKeepsGreedy(batches: seq<seq<Script>>, current: seq<Script>, s: Script)
    requires current != [] && Greedy(batches + [current]) && !Fits(current + [s])
    ensures Greedy(batches + [current] + [[s]])
  {
  }

  lemma {:induction false} FlattenSnoc(batches: seq<seq<Script>>, last: seq<Script>)
    ensures Flatten(batches + [last]) == Flatten(batches) + last
  {
    if batches == [] {
      assert [last][1..] == [];
    } else {
      assert (batches + [last])[1..] == batches[1..] + [last];
      FlattenSnoc(batches[1..], last);
    }
  }

  lemma Cut(done: seq<Script>, batches: seq<seq<Script>>, current: seq<Script>, s: Script)
    requires Grouping(done, batches, current) && current != [] && !Fits(current + [s])
    ensures Grouping(done + [s], batches + [current], [] + [s])
  {
    FlattenSnoc(batches, current);
    CloseKeepsGreedy(batches, current, s);
    assert [] + [s] == [s];
  }

  lemma GrowKeepsGreedy(batches: seq<seq<Script>>, current: seq<Script>, s: Script)
    requires current != [] && Greedy(batches + [current])
    ensures Greedy(batches + [current + [s]])
  {
    var before, after := batches + [current], batches + [current + [s]];
    forall k | 0 <= k < |after|
      ensures after[k] != [] && after[k][0] == before[k][0]
    {
      assert before[k] != [];
    }
  }

  lemma Grow(done: seq<Script>, batches: seq<seq<Script>>, current: seq<Script>, s: Script)
    requires Grouping(done, batches, current) && Fits(current + [s])
    ensures Grouping(done + [s], batches, current + [s])
  {
    if current != [] {
      GrowKeepsGreedy(batches, current, s);
    }
  }

  lemma OneMoreScript(batch: seq<Script>, s: Script)
    ensures Chars(batch + [s]) == Chars(batch) + |s.content|
  {
    assert (batch + [s])[..|batch|] == batch;
  }

  /** The next script starts a batch exactly when it does not fit into the current one. */
  lemma NextScript(done: seq<Script>, batches: seq<seq<Script>>, current: seq<Script>, s: Script)
    requires Grouping(done, batches, current)
    ensures Chars(current + [s]) == Chars(current) + |s.content| && Chars([] + [s]) == |s.content|
    ensures if |current| > 0 && (Chars(current) + |s.content| > MAX_BATCH_CHARS || |current| >= MAX_SCRIPTS_PER_BATCH)
            then Grouping(done + [s], batches + [current], [] + [s])
            else Grouping(done + [s], batches, current + [s])
  {
    OneMoreScript(current, s);
    OneMoreScript([], s);
    if |current| > 0 && !Fits(current + [s]) {
      Cut(done, batches, current, s);
    } else {
      Grow(done, batches, current, s);
    }
  }

  lemma Finish(scripts: seq<Script>, batches: seq<seq<Script>>, current: seq<Script>)
    requires Grouping(scripts, batches, current) && scripts != []
    ensures current != [] && Split(scripts, batches + [current]) && Greedy(batches + [current])
  {
    FlattenSnoc(batches, current);
  }

  method BatchScripts(prepared: seq<Script>) returns (batches: seq<seq<Script>>)
    ensures Split(prepared, batches)
    ensures Greedy(batches)
  {
    batches := [];
    if |prepared| == 0 {
      return;
    }
    var current, currentChars := [], 0;
    for i := 0 to |prepared|
      invariant Grouping(prepared[..i], batches, current)
      invariant currentChars == Chars(current)
    {
      var contentLen := |prepared[i].content|;
      OneLonger(prepared, i);
      NextScript(prepared[..i], batches, current, prepared[i]);
      // Start a new batch if adding this script would exceed the limits.
      if |current| > 0 && (currentChars + contentLen > MAX_BATCH_CHARS || |current| >= MAX_SCRIPTS_PER_BATCH) {
        batches := batches + [current];
        current, currentChars := [], 0;
      }
      current := current + [prepared[i]];
      currentChars := currentChars + contentLen;
    }
    assert prepared[..|prepared|] == prepared;
    Finish(prepared, batches, current);
    if |current| > 0 {
      batches := batches + [current];
    }
  }

  // ---------- Optimality ----------

  lemma {:induction false} CharsSplit(a: seq<Script>, b: seq<Script>)
    ensures Chars(a + b) == Chars(a) + Chars(b)
  {
    if b == [] {
      assert a + b == a;
    } else {
      assert (a + b)[..|a + b| - 1] == a + b[..|b| - 1];
      CharsSplit(a, b[..|b| - 1]);
    }
  }

  /** Whatever lies inside a batch within the limits is within the limits. */
  lemma PartFits(before: seq<Script>, part: seq<Script>, after: seq<Script>)
    requires Fits(before + part + after)
    ensures Fits(part)
  {
    CharsSplit(before + part, after);
    CharsSplit(before, part);
  }

  lemma FirstIsNonEmpty(greedy: seq<seq<Script>>)
    requires Greedy(greedy) && greedy != []
    ensures Flatten(greedy) != []
  {
    assert greedy[0] != [];
  }

  /** A batch that starts no later than the greedy one cannot reach beyond it. */
  lemma FirstBatchCovers(pre: seq<Script>, greedy: seq<seq<Script>>, o: seq<Script>, rest: seq<Script>)
    requires Greedy(greedy) && |greedy| > 1
    requires Fits(o) && o + rest == pre + Flatten(greedy)
    ensures |o| <= |pre| + |greedy[0]|
  {
    var g, next := greedy[0], greedy[1][0];
    if |o| > |pre| + |g| {
      var whole := pre + Flatten(greedy);
      assert Flatten(greedy) == g + (greedy[1] + Flatten(greedy[1..][1..]));
      assert whole[|pre|..|pre| + |g| + 1] == g + [next];
      assert o == whole[..|o|];
      assert o == pre + (g + [next]) + o[|pre| + |g| + 1..];
      PartFits(pre, g + [next], o[|pre| + |g| + 1..]);
    }
  }

  /**
    The greedy cut stays ahead: cutting a tail of the list greedily never needs more
    batches than any cut of the whole list within the limits.
  */
  lemma {:induction false} GreedyStaysAhead(pre: seq<Script>, greedy: seq<seq<Script>>, other: seq<seq<Script>>)
    requires Greedy(greedy)
    requires Split(pre + Flatten(greedy), other)
    ensures |greedy| <= |other|
    decreases other
  {
    if greedy == [] {
    } else {
      FirstIsNonEmpty(greedy);
      var whole, o, rest := pre + Flatten(greedy), other[0], Flatten(other[1..]);
      assert o + rest == whole;
      if |o| <= |pre| {
        assert pre[|o|..] + Flatten(greedy) == rest by { assert rest == whole[|o|..]; }
        GreedyStaysAhead(pre[|o|..], greedy, other[1..]);
      } else if |greedy| > 1 {
        var g, tail := greedy[0], Flatten(greedy[1..]);
        assert whole == pre + g + tail;
        FirstBatchCovers(pre, greedy, o, rest);
        var left := (pre + g)[|o|..];
        assert left + tail == rest by { assert rest == whole[|o|..]; }
        GreedyStaysAhead(left, greedy[1..], other[1..]);
      }
    }
  }

  /** No other consecutive split within the limits uses fewer batches, for any input. */
  lemma GreedyIsOptimal(prepared: seq<Script>, batches: seq<seq<Script>>, other: seq<seq<Script>>)
    requires Split(prepared, batches) && Greedy(batches)
    requires Split(prepared, other)
    ensures |batches| <= |other|
  {
    assert [] + Flatten(batches) == prepared;
    GreedyStaysAhead([], batches, other);
  }

  lemma {:induction false} InFlatten(batches: seq<seq<Script>>, k: nat, s: Script)
    requires k < |batches| && s in batches[k]
    ensures s in Flatten(batches)
  {
    if k == 0 {
    } else {
      InFlatten(batches[1..], k - 1, s);
    }
  }

  /** Because preparation caps every script, each batch of prepared scripts respects both limits strictly. */
  method PrepareAndBatch(scripts: seq<Script>, blank: Bytes -> bool) returns (batches: seq<seq<Script>>)
    ensures Flatten(batches) == Prepared(scripts, blank) && KeepsNonBlank(Flatten(batches), scripts, blank)
    ensures forall k :: 0 <= k < |batches| ==>
      1 <= |batches[k]| <= 5 && Chars(batches[k]) <= 6000
    ensures forall other :: Split(Prepared(scripts, blank), other) ==> |batches| <= |other|
  {
    var prepared := PrepareScripts(scripts, blank);
    if |prepared| == 0 {
      return [];
    }
    batches := BatchScripts(prepared);
    forall k | 0 <= k < |batches|
      ensures 1 <= |batches[k]| <= MAX_SCRIPTS_PER_BATCH && Chars(batches[k]) <= MAX_BATCH_CHARS
    {
      if |batches[k]| == 1 {
        InFlatten(batches, k, batches[k][0]);
        assert batches[k][..0] == [];
      }
    }
    forall other | Split(prepared, other) ensures |batches| <= |other| {
      GreedyIsOptimal(prepared, batches, other);
    }
  }
}
