/**
  Severity escalation: what the severities and categories of one surface add up to.
*/
module SeverityEscalation {
  import opened Numbers
  import opened Wrappers
  import opened Findings
  import opened CorrelationRules

  function Categories(fs: seq<Finding>): set<string> {
    set f | f in fs :: f.category
  }

  function CountSeverity(fs: seq<Finding>, severity: Severity): nat {
    if fs == [] then 0
    else CountSeverity(fs[..|fs| - 1], severity) + if fs[|fs| - 1].severity == severity then 1 else 0
  }

  datatype Escalation = Escalation(code: string, severity: Severity, title: string)

  /** The escalation a surface deserves; none when a finding is critical already. */
  function EscalationOf(fs: seq<Finding>): Option<Escalation> {
    if CountSeverity(fs, CRITICAL) > 0 then None
    else if |Categories(fs)| >= 3 then
      Some(Escalation(CODE_MULTIPLE_CATEGORIES, CRITICAL, "Multiple security concern categories detected"))
    else if CountSeverity(fs, HIGH) > 0 && |fs| > 1 then
      Some(Escalation(CODE_HIGH_PLUS_OTHER, CRITICAL, "High-severity finding combined with other issues"))
    else if CountSeverity(fs, MEDIUM) >= 2 then
      Some(Escalation(CODE_MEDIUM_PLUS_MEDIUM, HIGH, "Multiple medium-severity findings compound risk"))
    else None
  }

  function EscalationFindings(surfaceID: string, surfaceKey: string, fs: seq<Finding>): (built: seq<Built>)
    ensures |built| <= 1
  {
    match EscalationOf(fs)
    case None => []
    case Some(e) => [Compound(e.code, e.severity, CATEGORY_TRUST, surfaceID, surfaceKey, e.title, fs)]
  }

  lemma {:induction false} CountIsMonotone(fs: seq<Finding>, i: nat, severity: Severity)
    requires i <= |fs|
    ensures CountSeverity(fs[..i], severity) <= CountSeverity(fs, severity)
    decreases |fs|
  {
    if i < |fs| {
      assert fs[..|fs| - 1][..i] == fs[..i];
      CountIsMonotone(fs[..|fs| - 1], i, severity);
    } else {
      assert fs[..i] == fs;
    }
  }

  /** The single pass over severities and categories; it stops at the first critical finding. */
  method CountFindings(fs: seq<Finding>) returns (categories: set<string>, mediumCount: nat, highCount: nat, critical: bool)
    ensures critical <==> CountSeverity(fs, CRITICAL) > 0
    ensures !critical ==>
      categories == Categories(fs) && mediumCount == CountSeverity(fs, MEDIUM) && highCount == CountSeverity(fs, HIGH)
  {
    categories, mediumCount, highCount, critical := {}, 0, 0, false;
    for i := 0 to |fs|
      invariant categories == Categories(fs[..i])
      invariant mediumCount == CountSeverity(fs[..i], MEDIUM) && highCount == CountSeverity(fs[..i], HIGH)
      invariant CountSeverity(fs[..i], CRITICAL) == 0 && !critical
    {
      assert fs[..i + 1][..i] == fs[..i];
      assert fs[..i + 1] == fs[..i] + [fs[i]];
      categories := categories + {fs[i].category};
      if fs[i].severity == MEDIUM {
        mediumCount := mediumCount + 1;
      } else if fs[i].severity == HIGH {
        highCount := highCount + 1;
      } else if fs[i].severity == CRITICAL {
        CountIsMonotone(fs, i + 1, CRITICAL);
        return categories, mediumCount, highCount, true;
      }
    }
    assert fs[..|fs|] == fs;
  }

  method ApplyEscalation(surfaceID: string, surfaceKey: string, fs: seq<Finding>) returns (result: seq<Finding>)
    ensures result == Compounds(EscalationFindings(surfaceID, surfaceKey, fs))
  {
    var categories, mediumCount, highCount, critical := CountFindings(fs);
    if critical {
      return [];
    }
    var finding;
    if |categories| >= 3 {
      finding := Finding(CODE_MULTIPLE_CATEGORIES, CRITICAL, CATEGORY_TRUST, surfaceID, surfaceKey, Unset, CHECKER, "",
                         "Multiple security concern categories detected", [], []);
    } else if highCount > 0 && |fs| > 1 {
      finding := Finding(CODE_HIGH_PLUS_OTHER, CRITICAL, CATEGORY_TRUST, surfaceID, surfaceKey, Unset, CHECKER, "",
                         "High-severity finding combined with other issues", [], []);
    } else if mediumCount >= 2 {
      finding := Finding(CODE_MEDIUM_PLUS_MEDIUM, HIGH, CATEGORY_TRUST, surfaceID, surfaceKey, Unset, CHECKER, "",
                         "Multiple medium-severity findings compound risk", [], []);
    } else {
      return [];
    }
    finding := AttachEscalationInputs(finding, fs);
    result := [finding];
  }

  lemma {:induction false} CountPositive(fs: seq<Finding>, severity: Severity)
    ensures CountSeverity(fs, severity) > 0 <==> exists f :: f in fs && f.severity == severity
  {
    if fs == [] {
    } else {
      var front, last := fs[..|fs| - 1], fs[|fs| - 1];
      assert fs == front + [last];
      CountPositive(front, severity);
    }
  }

  lemma {:induction false} CountAtMost(fs: seq<Finding>, severity: Severity)
    ensures CountSeverity(fs, severity) <= |fs|
  {
    if fs == [] {
    } else {
      CountAtMost(fs[..|fs| - 1], severity);
    }
  }

  /** The escalation of a surface is strictly more severe than every finding in it. */
  lemma EscalationIsStrictlyAbove(fs: seq<Finding>, f: Finding)
    requires f in fs && EscalationOf(fs).Some?
    ensures f.severity < EscalationOf(fs).value.severity
  {
    CountPositive(fs, CRITICAL);
    CountPositive(fs, HIGH);
    CountAtMost(fs, MEDIUM);
  }

  function MaxSeverity(fs: seq<Finding>): Severity {
    if fs == [] then INFO else Max(MaxSeverity(fs[..|fs| - 1]), fs[|fs| - 1].severity)
  }

  /** The worst of a surface's findings and of its escalation. */
  function Verdict(fs: seq<Finding>): Severity {
    match EscalationOf(fs)
    case None => MaxSeverity(fs)
    case Some(e) => Max(MaxSeverity(fs), e.severity)
  }

  lemma {:induction false} MaxSeverityIsWorst(fs: seq<Finding>, f: Finding)
    requires f in fs
    ensures f.severity <= MaxSeverity(fs)
  {
    var front, last := fs[..|fs| - 1], fs[|fs| - 1];
    assert fs == front + [last];
    if f in front {
      MaxSeverityIsWorst(front, f);
    }
  }

  lemma {:induction false} MaxSeverityInsert(a: seq<Finding>, f: Finding, b: seq<Finding>)
    ensures MaxSeverity(a + [f] + b) >= MaxSeverity(a + b)
    ensures CountSeverity(a + [f] + b, MEDIUM) >= CountSeverity(a + b, MEDIUM)
  {
    if b == [] {
      assert a + [f] + b == a + [f] && a + b == a;
      assert (a + [f])[..|a|] == a;
    } else {
      var front, last := b[..|b| - 1], b[|b| - 1];
      assert (a + [f] + b)[..|a| + |b|] == a + [f] + front;
      assert (a + b)[..|a + b| - 1] == a + front;
      MaxSeverityInsert(a, f, front);
    }
  }

  lemma {:induction false} SubsetNoLarger<T>(a: set<T>, b: set<T>)
    requires a <= b
    ensures |a| <= |b|
  {
    if a == {} {
    } else {
      var x :| x in a;
      SubsetNoLarger(a - {x}, b - {x});
    }
  }

  // ---------- When a surface escalates, by its findings ----------

  predicate SomeOf(fs: seq<Finding>, severity: Severity) {
    exists i :: 0 <= i < |fs| && fs[i].severity == severity
  }

  predicate TwoOf(fs: seq<Finding>, severity: Severity) {
    exists i, j :: 0 <= i < j < |fs| && fs[i].severity == severity && fs[j].severity == severity
  }

  predicate ThreeCategories(fs: seq<Finding>) {
    exists i, j, k :: 0 <= i < |fs| && 0 <= j < |fs| && 0 <= k < |fs|
      && fs[i].category != fs[j].category && fs[j].category != fs[k].category && fs[i].category != fs[k].category
  }

  lemma CountsSomeOf(fs: seq<Finding>, severity: Severity)
    ensures CountSeverity(fs, severity) > 0 <==> SomeOf(fs, severity)
  {
    CountPositive(fs, severity);
    if f :| f in fs && f.severity == severity {
      var i :| 0 <= i < |fs| && fs[i] == f;
    }
  }

  lemma {:induction false} CountsTwoOf(fs: seq<Finding>, severity: Severity)
    ensures CountSeverity(fs, severity) >= 2 <==> TwoOf(fs, severity)
  {
    if fs == [] {
    } else {
      var front := fs[..|fs| - 1];
      CountsTwoOf(front, severity);
      CountsSomeOf(front, severity);
      if TwoOf(front, severity) {
        var i, j :| 0 <= i < j < |front| && front[i].severity == severity && front[j].severity == severity;
        assert fs[i].severity == severity && fs[j].severity == severity;
      } else if TwoOf(fs, severity) {
        var i, j :| 0 <= i < j < |fs| && fs[i].severity == severity && fs[j].severity == severity;
        assert j == |fs| - 1 && front[i].severity == severity;
      } else if SomeOf(front, severity) {
        var i :| 0 <= i < |front| && front[i].severity == severity;
        assert fs[i].severity == severity;
      }
    }
  }

  lemma CategoryAt(fs: seq<Finding>, c: string) returns (i: nat)
    requires c in Categories(fs)
    ensures i < |fs| && fs[i].category == c
  {
    var f :| f in fs && f.category == c;
    i :| 0 <= i < |fs| && fs[i] == f;
  }

  lemma ThreeCategoriesCounted(fs: seq<Finding>)
    requires |Categories(fs)| >= 3
    ensures ThreeCategories(fs)
  {
    var s := Categories(fs);
    var a :| a in s;
    assert |s - {a}| == |s| - 1;
    var b :| b in s - {a};
    assert |s - {a} - {b}| == |s| - 2;
    var c :| c in s - {a} - {b};
    var i := CategoryAt(fs, a);
    var j := CategoryAt(fs, b);
    var k := CategoryAt(fs, c);
  }

  lemma ThreeOfASet<T>(s: set<T>, a: T, b: T, c: T)
    requires a in s && b in s && c in s && a != b && b != c && a != c
    ensures |s| >= 3
  {
    SubsetNoLarger({a, b, c}, s);
  }

  lemma ThreeCategoriesSuffice(fs: seq<Finding>)
    requires ThreeCategories(fs)
    ensures |Categories(fs)| >= 3
  {
    var i, j, k :| 0 <= i < |fs| && 0 <= j < |fs| && 0 <= k < |fs|
      && fs[i].category != fs[j].category && fs[j].category != fs[k].category && fs[i].category != fs[k].category;
    assert fs[i] in fs && fs[j] in fs && fs[k] in fs;
    ThreeOfASet(Categories(fs), fs[i].category, fs[j].category, fs[k].category);
  }

  lemma ThreeCategoriesIff(fs: seq<Finding>)
    ensures |Categories(fs)| >= 3 <==> ThreeCategories(fs)
  {
    hide ThreeCategories, Categories;
    if |Categories(fs)| >= 3 {
      ThreeCategoriesCounted(fs);
    }
    if ThreeCategories(fs) {
      ThreeCategoriesSuffice(fs);
    }
  }

  /**
    The escalation, told from the findings alone. Severity 4 is critical, 3 high and
    2 medium; a higher finding only counts beside another.
  */
  lemma EscalationExact(fs: seq<Finding>)
    ensures EscalationOf(fs)
         == if SomeOf(fs, 4) then None
            else if ThreeCategories(fs) then
              Some(Escalation("correlator-multiple-categories", 4, "Multiple security concern categories detected"))
            else if SomeOf(fs, 3) && |fs| >= 2 then
              Some(Escalation("correlator-high-plus-other", 4, "High-severity finding combined with other issues"))
            else if TwoOf(fs, 2) then
              Some(Escalation("correlator-medium-plus-medium", 3, "Multiple medium-severity findings compound risk"))
            else None
  {
    hide CountSeverity, Categories, SomeOf, TwoOf, ThreeCategories;
    CountsSomeOf(fs, 4);
    CountsSomeOf(fs, 3);
    CountsTwoOf(fs, 2);
    ThreeCategoriesIff(fs);
  }

  /** The escalation finding of a surface: a trust finding of the correlator built from everything there. */
  lemma EscalationFindingExact(surfaceID: string, surfaceKey: string, fs: seq<Finding>)
    ensures EscalationOf(fs).None? ==> EscalationFindings(surfaceID, surfaceKey, fs) == []
    ensures EscalationOf(fs).Some? ==>
      var e, built := EscalationOf(fs).value, EscalationFindings(surfaceID, surfaceKey, fs);
      && |built| == 1 && built[0].inputs == fs && RecordsInputs(built[0].compound, fs)
      && var c := built[0].compound;
      && c.code == e.code && c.severity == e.severity && c.title == e.title && c.category == "trust"
      && c.surfaceID == surfaceID && c.surfaceKey == surfaceKey && c.surfaceKind == Unset
      && c.checker == "correlator" && c.filePath == ""
  {
    match EscalationOf(fs)
    case None =>
    case Some(e) =>
      var target := Finding(e.code, e.severity, CATEGORY_TRUST, surfaceID, surfaceKey, Unset, CHECKER, "", e.title, [], []);
      AttachedRecords(target, fs);
  }

  /**
    Adding a finding anywhere never lowers the surface's verdict, even though a
    critical one removes the escalation.
  */
  lemma VerdictNeverDrops(a: seq<Finding>, f: Finding, b: seq<Finding>)
    ensures Verdict(a + b) <= Verdict(a + [f] + b)
  {
    var before, after := a + b, a + [f] + b;
    assert forall g :: g in before ==> g in after;
    MaxSeverityInsert(a, f, b);
    CountPositive(before, CRITICAL);
    CountPositive(after, CRITICAL);
    CountPositive(before, HIGH);
    CountPositive(after, HIGH);
    SubsetNoLarger(Categories(before), Categories(after));
    if CountSeverity(after, CRITICAL) > 0 {
      var g :| g in after && g.severity == CRITICAL;
      MaxSeverityIsWorst(after, g);
    }
  }
}
