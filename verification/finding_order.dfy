/**
  The display order of findings (`sortFindings`): severity descending, then file path,
  checker and title ascending.
*/
module FindingOrder {
  import opened Findings
  import opened Sorting
  import opened Text

  /** `a < b` for Go strings. */
  predicate Before(a: string, b: string) {
    Less(a, b, (c: char) => c as int)
  }

  /** Up to `k` the strings agree; there `a` ends or has the smaller character. */
  predicate BeforeAt(a: string, b: string, k: nat) {
    k <= |a| && k < |b| && a[..k] == b[..k] && (k == |a| || a[k] < b[k])
  }

  /** The first character in which the strings differ decides, and a proper prefix comes first. */
  lemma BeforeIff(a: string, b: string)
    ensures Before(a, b) <==> exists k: nat :: BeforeAt(a, b, k)
  {
    var rank := (c: char) => c as int;
    LessIff(a, b, rank);
    assert Before(a, b) <==> Less(a, b, rank);
    assert forall k: nat :: BeforeAt(a, b, k) <==> SmallerAt(a, b, rank, k);
  }

  lemma BeforeIsStrictTotal(a: string, b: string)
    ensures a == b ==> !Before(a, b)
    ensures a != b ==> (Before(a, b) <==> !Before(b, a))
  {
    LessIsStrictTotal(a, b, (c: char) => c as int);
  }

  lemma BeforeIsTransitive(a: string, b: string, c: string)
    requires Before(a, b) && Before(b, c)
    ensures Before(a, c)
  {
    LessIsTransitive(a, b, c, (c: char) => c as int);
  }

  /** The comparison of `sortFindings`, read as "a may stand before b". */
  predicate AtMost(a: Finding, b: Finding) {
    if a.severity != b.severity then b.severity < a.severity
    else if a.filePath != b.filePath then Before(a.filePath, b.filePath)
    else if a.checker != b.checker then Before(a.checker, b.checker)
    else !Before(b.title, a.title)
  }

  /** The four keys of the comparison agree. */
  predicate SameKeys(a: Finding, b: Finding) {
    a.severity == b.severity && a.filePath == b.filePath && a.checker == b.checker && a.title == b.title
  }

  lemma AtMostIsTotal(a: Finding, b: Finding)
    ensures AtMost(a, b) || AtMost(b, a)
    ensures AtMost(a, b) && AtMost(b, a) <==> SameKeys(a, b)
  {
    BeforeIsStrictTotal(a.filePath, b.filePath);
    BeforeIsStrictTotal(a.checker, b.checker);
    BeforeIsStrictTotal(a.title, b.title);
  }

  lemma NotAfterIsTransitive(a: string, b: string, c: string)
    requires !Before(b, a) && !Before(c, b)
    ensures !Before(c, a)
  {
    BeforeIsStrictTotal(a, b);
    BeforeIsStrictTotal(b, c);
    BeforeIsStrictTotal(a, c);
    if a != b && b != c {
      BeforeIsTransitive(a, b, c);
    }
  }

  /** Two steps forward in one key are a step forward. */
  lemma TwoStepsForward(a: string, b: string, c: string)
    requires (a == b || Before(a, b)) && (b == c || Before(b, c))
    ensures a == b == c || (a != c && Before(a, c))
  {
    BeforeIsStrictTotal(a, b);
    BeforeIsStrictTotal(a, c);
    if a != b && b != c {
      BeforeIsTransitive(a, b, c);
    }
  }

  lemma AtMostIsTransitive(a: Finding, b: Finding, c: Finding)
    requires AtMost(a, b) && AtMost(b, c)
    ensures AtMost(a, c)
  {
    if a.severity == b.severity == c.severity {
      TwoStepsForward(a.filePath, b.filePath, c.filePath);
      if a.filePath == b.filePath == c.filePath {
        TwoStepsForward(a.checker, b.checker, c.checker);
        if a.checker == b.checker == c.checker {
          NotAfterIsTransitive(a.title, b.title, c.title);
        }
      }
    }
  }

  lemma AtMostIsTotalPreorder()
    ensures TotalPreorder(AtMost)
  {
    forall a, b ensures AtMost(a, b) || AtMost(b, a) {
      AtMostIsTotal(a, b);
    }
    forall a, b, c | AtMost(a, b) && AtMost(b, c) ensures AtMost(a, c) {
      AtMostIsTransitive(a, b, c);
    }
  }

  /** No finding stands behind a less severe one, and among equals the path, the checker and the title ascend. */
  ghost predicate InDisplayOrder(fs: seq<Finding>) {
    forall i, j :: 0 <= i < j < |fs| ==>
      && fs[j].severity <= fs[i].severity
      && (fs[i].severity == fs[j].severity ==>
            && !Before(fs[j].filePath, fs[i].filePath)
            && (fs[i].filePath == fs[j].filePath ==>
                  && !Before(fs[j].checker, fs[i].checker)
                  && (fs[i].checker == fs[j].checker ==> !Before(fs[j].title, fs[i].title))))
  }

  lemma SortedInDisplayOrder(fs: seq<Finding>)
    requires Sorted(fs, AtMost)
    ensures InDisplayOrder(fs)
  {
    forall i, j | 0 <= i < j < |fs|
      ensures AtMost(fs[i], fs[j])
      ensures fs[i].filePath != fs[j].filePath ==>
        (Before(fs[i].filePath, fs[j].filePath) <==> !Before(fs[j].filePath, fs[i].filePath))
      ensures fs[i].checker != fs[j].checker ==>
        (Before(fs[i].checker, fs[j].checker) <==> !Before(fs[j].checker, fs[i].checker))
      ensures !Before(fs[i].filePath, fs[i].filePath) && !Before(fs[i].checker, fs[i].checker)
    {
      AtMostIsTotal(fs[i], fs[j]);
      BeforeIsStrictTotal(fs[i].filePath, fs[j].filePath);
      BeforeIsStrictTotal(fs[i].checker, fs[j].checker);
      BeforeIsStrictTotal(fs[i].filePath, fs[i].filePath);
      BeforeIsStrictTotal(fs[i].checker, fs[i].checker);
    }
  }

  method SortFindings(findings: seq<Finding>) returns (sorted: seq<Finding>)
    ensures SortedPermutation(sorted, findings, AtMost)
    ensures InDisplayOrder(sorted)
  {
    AtMostIsTotalPreorder();
    sorted := SortFunc(findings, AtMost);
    SortedInDisplayOrder(sorted);
  }

  /** The findings have one sorted form if and only if no two different ones agree on the four keys. */
  lemma SortedFindingsUniqueIff(findings: seq<Finding>)
    ensures (forall s, t :: SortedPermutation(s, findings, AtMost) && SortedPermutation(t, findings, AtMost) ==> s == t)
       <==> forall a, b :: a in findings && b in findings && SameKeys(a, b) ==> a == b
  {
    AtMostIsTotalPreorder();
    SortedFormUniqueIff(findings, AtMost);
    forall a, b
      ensures AtMost(a, b) && AtMost(b, a) <==> SameKeys(a, b)
    {
      AtMostIsTotal(a, b);
    }
  }
}
