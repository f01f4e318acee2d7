/**
  The typosquatting part of the module metadata checker: every module is compared
  with all module IDs, and a lexicographic guard keeps one finding per pair. The
  guard loses nothing only because the edit distance is symmetric.
*/
module Typosquatting {
  import opened Wrappers
  import opened Selection
  import opened Text
  import opened EditDistance

  const TYPOSQUAT_THRESHOLD: nat := 3

  /** A scanned module; `id` is None when it has no module or no metadata. */
  datatype ScannedModule = ScannedModule(surfaceID: string, id: Option<Bytes>)

  /** A "similar module ID" finding: who reports, about which pair, at what distance. */
  datatype SimilarID = SimilarID(surfaceID: string, thisID: Bytes, otherID: Bytes, dist: nat)

  /** `a < b` for Go strings. */
  predicate Before(a: Bytes, b: Bytes) {
    Less(a, b, (x: Byte) => x as int)
  }

  /** Up to `k` the IDs agree; there `a` ends or has the smaller byte. */
  predicate BeforeAt(a: Bytes, b: Bytes, k: nat) {
    k <= |a| && k < |b| && a[..k] == b[..k] && (k == |a| || a[k] < b[k])
  }

  /** The first byte in which the IDs differ decides, and a proper prefix comes first. */
  lemma BeforeIff(a: Bytes, b: Bytes)
    ensures Before(a, b) <==> exists k: nat :: BeforeAt(a, b, k)
  {
    var rank := (x: Byte) => x as int;
    LessIff(a, b, rank);
    assert Before(a, b) <==> Less(a, b, rank);
    assert forall k: nat :: BeforeAt(a, b, k) <==> SmallerAt(a, b, rank, k);
  }

  /** Of two different IDs exactly one passes the guard. */
  lemma GuardPassesOne(a: Bytes, b: Bytes)
    ensures a == b ==> !Before(a, b)
    ensures a != b ==> (Before(a, b) <==> !Before(b, a))
  {
    LessIsStrictTotal(a, b, (x: Byte) => x as int);
  }

  // ---------- Counting ----------

  function ModuleIDs(mods: seq<ScannedModule>): seq<Bytes> {
    if mods == [] then []
    else ModuleIDs(mods[..|mods| - 1])
         + (match mods[|mods| - 1].id case None => [] case Some(id) => [id])
  }

  /** The ID of each module that has one, in order. */
  ghost predicate IDsOf(ids: seq<Bytes>, bearers: seq<ScannedModule>) {
    |ids| == |bearers| && forall k :: 0 <= k < |ids| ==> bearers[k].id == Some(ids[k])
  }

  lemma {:induction false} ModuleIDsExact(mods: seq<ScannedModule>) returns (bearers: seq<ScannedModule>)
    ensures IsSelection(bearers, mods, (m: ScannedModule) => m.id.Some?) && IDsOf(ModuleIDs(mods), bearers)
  {
    var keep := (m: ScannedModule) => m.id.Some?;
    if mods == [] {
      bearers := [];
      NothingToSelect(keep);
    } else {
      var front, m := mods[..|mods| - 1], mods[|mods| - 1];
      assert mods == front + [m];
      bearers := ModuleIDsExact(front);
      SelectNext(bearers, front, m, keep);
      bearers := bearers + if keep(m) then [m] else [];
    }
  }

  function Occurrences(ids: seq<Bytes>, x: Bytes): nat {
    multiset(ids)[x]
  }

  /** How many findings are about the ordered pair (x, y). */
  function Reports(findings: seq<SimilarID>, x: Bytes, y: Bytes): nat {
    if findings == [] then 0
    else var f := findings[|findings| - 1];
         Reports(findings[..|findings| - 1], x, y) + (if f.thisID == x && f.otherID == y then 1 else 0)
  }

  lemma {:induction false} ReportsConcat(f: seq<SimilarID>, g: seq<SimilarID>, x: Bytes, y: Bytes)
    ensures Reports(f + g, x, y) == Reports(f, x, y) + Reports(g, x, y)
  {
    if g == [] {
      assert f + g == f;
    } else {
      assert (f + g)[..|f + g| - 1] == f + g[..|g| - 1];
      ReportsConcat(f, g[..|g| - 1], x, y);
    }
  }

  /** Two different IDs within the threshold, the smaller one first. */
  predicate ReportablePair(x: Bytes, y: Bytes) {
    Before(x, y) && Dist(x, y) <= TYPOSQUAT_THRESHOLD
  }

  /** Every finding carries the true distance of a reportable pair. */
  predicate Truthful(findings: seq<SimilarID>) {
    forall f :: f in findings ==> ReportablePair(f.thisID, f.otherID) && f.dist == Dist(f.thisID, f.otherID) > 0
  }

  // ---------- The check ----------

  method CollectModuleIDs(mods: seq<ScannedModule>) returns (ids: seq<Bytes>)
    ensures ids == ModuleIDs(mods)
  {
    ids := [];
    for i := 0 to |mods|
      invariant ids == ModuleIDs(mods[..i])
    {
      assert mods[..i + 1][..i] == mods[..i];
      if mods[i].id.Some? {
        ids := ids + [mods[i].id.value];
      }
    }
    assert mods[..|mods|] == mods;
  }

  method CheckTyposquatting(mod: ScannedModule, allIDs: seq<Bytes>) returns (findings: seq<SimilarID>)
    ensures Truthful(findings)
    ensures forall f :: f in findings ==> f.surfaceID == mod.surfaceID
    ensures forall x, y :: Reports(findings, x, y)
                        == if mod.id == Some(x) && Before(x, y) && Dist(x, y) <= 3 then Occurrences(allIDs, y) else 0
  {
    findings := [];
    if mod.id.None? {
      return;
    }
    var thisID := mod.id.value;
    for i := 0 to |allIDs|
      invariant Truthful(findings)
      invariant forall f :: f in findings ==> f.surfaceID == mod.surfaceID
      invariant forall x, y :: Reports(findings, x, y)
                            == if thisID == x && ReportablePair(x, y) then Occurrences(allIDs[..i], y) else 0
    {
      var otherID := allIDs[i];
      assert allIDs[..i + 1] == allIDs[..i] + [otherID];
      GuardPassesOne(thisID, otherID);
      if thisID == otherID {
        continue;
      }
      if Before(otherID, thisID) {
        continue;
      }
      var dist := Levenshtein(thisID, otherID);
      DistZero(thisID, otherID);
      if dist > 0 && dist <= TYPOSQUAT_THRESHOLD {
        var finding := SimilarID(mod.surfaceID, thisID, otherID, dist);
        assert (findings + [finding])[..|findings|] == findings;
        findings := findings + [finding];
      }
    }
    assert allIDs[..|allIDs|] == allIDs;
  }

  function PairCount(left: seq<Bytes>, right: seq<Bytes>, x: Bytes, y: Bytes): nat {
    if ReportablePair(x, y) then Occurrences(left, x) * Occurrences(right, y) else 0
  }

  /**
    Every reportable pair is reported once for each bearer of the smaller ID in
    `left` and bearer of the larger ID in `right`; no other pair is reported.
  */
  ghost predicate ReportsProduct(findings: seq<SimilarID>, left: seq<Bytes>, right: seq<Bytes>) {
    forall x, y :: Reports(findings, x, y) == PairCount(left, right, x, y)
  }

  lemma Distribute(m: nat, n: nat)
    ensures (m + 1) * n == m * n + n
  {
  }

  lemma OneMoreBearer(mods: seq<ScannedModule>, i: nat, right: seq<Bytes>, x: Bytes, y: Bytes)
    requires i < |mods|
    ensures PairCount(ModuleIDs(mods[..i + 1]), right, x, y)
         == PairCount(ModuleIDs(mods[..i]), right, x, y)
            + if mods[i].id == Some(x) && ReportablePair(x, y) then Occurrences(right, y) else 0
  {
    assert mods[..i + 1][..i] == mods[..i];
    var m := Occurrences(ModuleIDs(mods[..i]), x);
    assert Occurrences(ModuleIDs(mods[..i + 1]), x) == m + if mods[i].id == Some(x) then 1 else 0;
    Distribute(m, Occurrences(right, y));
  }

  lemma OneMoreModule(mods: seq<ScannedModule>, i: nat, ids: seq<Bytes>, before: seq<SimilarID>, more: seq<SimilarID>)
    requires i < |mods|
    requires ReportsProduct(before, ModuleIDs(mods[..i]), ids)
    requires forall x, y :: Reports(more, x, y)
                         == if mods[i].id == Some(x) && ReportablePair(x, y) then Occurrences(ids, y) else 0
    ensures ReportsProduct(before + more, ModuleIDs(mods[..i + 1]), ids)
  {
    forall x, y
      ensures Reports(before + more, x, y) == PairCount(ModuleIDs(mods[..i + 1]), ids, x, y)
    {
      ReportsConcat(before, more, x, y);
      OneMoreBearer(mods, i, ids, x, y);
    }
  }

  /**
    The similar-ID findings of a whole `Check` run. `cancelledAt` is the first
    loop iteration that sees the context done; the findings of the modules before
    it are returned together with the cancellation error.
  */
  method Check(mods: seq<ScannedModule>, cancelledAt: nat) returns (findings: seq<SimilarID>, cancelled: bool)
    ensures cancelled <==> cancelledAt < |mods|
    ensures Truthful(findings)
    ensures ReportsProduct(findings, ModuleIDs(if cancelled then mods[..cancelledAt] else mods), ModuleIDs(mods))
  {
    var ids := CollectModuleIDs(mods);
    hide Dist, Less;
    findings := [];
    for i := 0 to |mods|
      invariant i <= cancelledAt
      invariant Truthful(findings)
      invariant ReportsProduct(findings, ModuleIDs(mods[..i]), ids)
    {
      if i == cancelledAt {
        return findings, true;
      }
      var more := CheckTyposquatting(mods[i], ids);
      OneMoreModule(mods, i, ids, findings, more);
      findings := findings + more;
    }
    assert mods[..|mods|] == mods;
    cancelled := false;
  }

  predicate DistinctIDs(ids: seq<Bytes>) {
    forall i, j :: 0 <= i < j < |ids| ==> ids[i] != ids[j]
  }

  lemma {:induction false} DistinctOccursOnce(ids: seq<Bytes>, x: Bytes)
    requires DistinctIDs(ids)
    ensures Occurrences(ids, x) == if x in ids then 1 else 0
  {
    if ids == [] {
    } else {
      assert ids == [ids[0]] + ids[1..];
      DistinctOccursOnce(ids[1..], x);
    }
  }

  /** Reports of the pair whichever of the two reports it. */
  function UnorderedReports(findings: seq<SimilarID>, x: Bytes, y: Bytes): nat {
    Reports(findings, x, y) + if x == y then 0 else Reports(findings, y, x)
  }

  /**
    The guard is lossless: over a whole uncancelled run each unordered pair of
    different IDs within the threshold is reported once per pair of modules that
    bear the two IDs, and no other pair is reported.
  */
  lemma PairReportedOncePerModulePair(ids: seq<Bytes>, findings: seq<SimilarID>, x: Bytes, y: Bytes)
    requires ReportsProduct(findings, ids, ids)
    ensures UnorderedReports(findings, x, y)
         == if x != y && Dist(x, y) <= 3 then Occurrences(ids, x) * Occurrences(ids, y) else 0
  {
    GuardPassesOne(x, y);
    DistSymmetric(x, y);
  }

  /** The module whose ID comes first reports the pair: it is a proper prefix or has the smaller byte where they differ. */
  lemma ReportedBySmallerIff(ids: seq<Bytes>, findings: seq<SimilarID>, x: Bytes, y: Bytes)
    requires ReportsProduct(findings, ids, ids)
    ensures Reports(findings, x, y) > 0 <==> x in ids && y in ids && Dist(x, y) <= 3 && exists k: nat :: BeforeAt(x, y, k)
  {
    BeforeIff(x, y);
    assert Reports(findings, x, y) == PairCount(ids, ids, x, y);
  }

  /** With pairwise distinct IDs "once per pair of modules" is exactly once. */
  lemma PairReportedExactlyOnce(ids: seq<Bytes>, findings: seq<SimilarID>, x: Bytes, y: Bytes)
    requires ReportsProduct(findings, ids, ids)
    requires DistinctIDs(ids)
    ensures UnorderedReports(findings, x, y)
         == if x in ids && y in ids && x != y && Dist(x, y) <= 3 then 1 else 0
  {
    PairReportedOncePerModulePair(ids, findings, x, y);
    DistinctOccursOnce(ids, x);
    DistinctOccursOnce(ids, y);
  }
}
