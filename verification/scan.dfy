/**
  A whole scan: checkers run as goroutines, their findings are assembled, correlated
  over a map of surfaces, triaged, and sorted for display. What may differ from one
  run to the next?
*/
module Scan {
  import opened BatchProtocol
  import opened Correlator
  import opened CorrelationRules
  import opened FindingOrder
  import opened Findings
  import opened Permutations
  import opened Report
  import opened SeverityEscalation
  import opened Sifting
  import opened Sorting
  import opened Surfaces
  import opened Triage

  /** What a scan knows besides its findings. */
  datatype Setting = Setting(surfaces: seq<SurfaceIdentity>, rules: seq<Rule>, within: (string, string) -> bool)

  /** The findings of a report, from those the checkers left in their slots. */
  function FindingsOf(results: seq<TaskResult<Finding>>, setting: Setting): seq<Finding> {
    Prepared(AllFindings(results), setting.surfaces, setting.within)
  }

  /** The compounds of a report when the surfaces are visited in the given order. */
  function CompoundsOf(fs: seq<Finding>, order: seq<string>, setting: Setting): seq<Finding> {
    Prepared(Compounds(BuiltInOrder(setting.rules, fs, order)), setting.surfaces, setting.within)
  }

  /** How the compounds are triaged, once the findings have been. */
  function CompoundPass(fs: seq<Finding>, order: seq<string>, setting: Setting): Pass {
    InOrder(CompoundsOf(fs, order, setting), InOrder(fs, {}).codes)
  }

  /** A completed, uncancelled run of the checkers with the given answers. */
  ghost predicate Completed(answers: seq<TaskResult<Finding>>, run: seq<Step<Finding>>, t: State<Finding>) {
    Reaches(ScannerConfig(|answers|), run, t) && t.waited && Uncancelled(run) && Answered(answers, run)
  }

  /** The compounds are triaged alike in every order. */
  ghost predicate SettledScan(fs: seq<Finding>, order: seq<string>, setting: Setting) {
    Settled(CompoundsOf(fs, order, setting), InOrder(fs, {}).codes, Policy())
  }

  /**
    Any two schedules of the checkers and any two orders of the surface map lead to the
    same findings, triaged alike, and to the same compounds, triaged alike: all four
    lists of the triaged report agree as multisets.
  */
  lemma {:induction false} ScanIsDeterministic(answers: seq<TaskResult<Finding>>, setting: Setting,
                                               run1: seq<Step<Finding>>, t1: State<Finding>, o1: seq<string>,
                                               run2: seq<Step<Finding>>, t2: State<Finding>, o2: seq<string>)
    requires Completed(answers, run1, t1) && Completed(answers, run2, t2)
    requires VisitsEach(o1, SurfaceKeys(FindingsOf(Results(t1), setting)))
    requires VisitsEach(o2, SurfaceKeys(FindingsOf(Results(t2), setting)))
    requires SettledScan(FindingsOf(Results(t1), setting), o1, setting)
    ensures var f1, f2 := FindingsOf(Results(t1), setting), FindingsOf(Results(t2), setting);
      && SameTriage(InOrder(f1, {}), InOrder(f2, {}))
      && SameTriage(CompoundPass(f1, o1, setting), CompoundPass(f2, o2, setting))
  {
    ScheduleIndependent(ScannerConfig(|answers|), answers, run1, t1);
    ScheduleIndependent(ScannerConfig(|answers|), answers, run2, t2);
    var fs := FindingsOf(answers, setting);
    ReportIsOrderIndependent(fs, setting.surfaces, setting.within, setting.rules, o1, o2, InOrder(fs, {}).codes);
  }

  // ---------- The displayed report ----------

  /** No two different findings agree on the four keys they are sorted by. */
  ghost predicate DistinctKeys(fs: seq<Finding>) {
    forall a, b :: a in fs && b in fs && SameKeys(a, b) ==> a == b
  }

  ghost predicate DistinctTriagedKeys(ts: seq<TriagedFinding>) {
    forall a, b :: a in ts && b in ts && SameKeys(a.finding, b.finding) && RuleName(a.rule) == RuleName(b.rule) ==> a == b
  }

  lemma DistinctKeysMeanNoTies(fs: seq<Finding>)
    ensures DistinctKeys(fs) <==> NoTies(fs, AtMost)
  {
    forall a, b
      ensures AtMost(a, b) && AtMost(b, a) <==> SameKeys(a, b)
    {
      AtMostIsTotal(a, b);
    }
  }

  lemma DistinctTriagedKeysMeanNoTies(ts: seq<TriagedFinding>)
    ensures DistinctTriagedKeys(ts) <==> NoTies(ts, TriagedAtMost)
  {
    forall a, b
      ensures TriagedAtMost(a, b) && TriagedAtMost(b, a)
         <==> SameKeys(a.finding, b.finding) && RuleName(a.rule) == RuleName(b.rule)
    {
      TriagedAtMostIsTotal(a, b);
    }
  }

  /** In each of the four lists no two different entries tie. */
  ghost predicate NothingTies(individual: Pass, compound: Pass) {
    && DistinctKeys(individual.confirmed) && DistinctKeys(compound.confirmed)
    && DistinctTriagedKeys(individual.suppressed) && DistinctTriagedKeys(compound.suppressed)
  }

  lemma NothingTiesMeansNoTies(individual: Pass, compound: Pass)
    ensures NothingTies(individual, compound)
       <==> && NoTies(individual.confirmed, AtMost) && NoTies(compound.confirmed, AtMost)
            && NoTies(individual.suppressed, TriagedAtMost) && NoTies(compound.suppressed, TriagedAtMost)
  {
    DistinctKeysMeanNoTies(individual.confirmed);
    DistinctKeysMeanNoTies(compound.confirmed);
    DistinctTriagedKeysMeanNoTies(individual.suppressed);
    DistinctTriagedKeysMeanNoTies(compound.suppressed);
  }

  /** Without ties two displays of the same passes are equal. */
  lemma {:induction false} OneDisplay(individual: Pass, compound: Pass, d1: ReportTriage, d2: ReportTriage)
    requires NothingTies(individual, compound)
    requires Displays(d1, individual, compound) && Displays(d2, individual, compound)
    ensures d1 == d2
  {
    NothingTiesMeansNoTies(individual, compound);
    AtMostIsTotalPreorder();
    TriagedAtMostIsTotalPreorder();
    SortedFormUniqueIff(individual.confirmed, AtMost);
    SortedFormUniqueIff(compound.confirmed, AtMost);
    SortedFormUniqueIff(individual.suppressed, TriagedAtMost);
    SortedFormUniqueIff(compound.suppressed, TriagedAtMost);
  }

  lemma {:induction false} SomeDisplay(individual: Pass, compound: Pass)
    ensures exists d :: Displays(d, individual, compound)
  {
    AtMostIsTotalPreorder();
    TriagedAtMostIsTotalPreorder();
    SortedExists(individual.confirmed, AtMost);
    SortedExists(compound.confirmed, AtMost);
    SortedExists(individual.suppressed, TriagedAtMost);
    SortedExists(compound.suppressed, TriagedAtMost);
    var a :| SortedPermutation(a, individual.confirmed, AtMost);
    var b :| SortedPermutation(b, compound.confirmed, AtMost);
    var c :| SortedPermutation(c, individual.suppressed, TriagedAtMost);
    var e :| SortedPermutation(e, compound.suppressed, TriagedAtMost);
    assert Displays(ReportTriage(a, b, c, e), individual, compound);
  }

  /** With a tie in one of the lists two displays of the same passes differ. */
  lemma {:induction false} TwoDisplays(individual: Pass, compound: Pass)
    requires !NothingTies(individual, compound)
    ensures exists d1, d2 :: Displays(d1, individual, compound) && Displays(d2, individual, compound) && d1 != d2
  {
    NothingTiesMeansNoTies(individual, compound);
    AtMostIsTotalPreorder();
    TriagedAtMostIsTotalPreorder();
    SomeDisplay(individual, compound);
    var d :| Displays(d, individual, compound);
    if !NoTies(individual.confirmed, AtMost) {
      TwoSortedForms(individual.confirmed, AtMost);
      var s :| SortedPermutation(s, individual.confirmed, AtMost) && s != d.confirmedFindings;
      assert Displays(d.(confirmedFindings := s), individual, compound);
    } else if !NoTies(compound.confirmed, AtMost) {
      TwoSortedForms(compound.confirmed, AtMost);
      var s :| SortedPermutation(s, compound.confirmed, AtMost) && s != d.confirmedCorrelated;
      assert Displays(d.(confirmedCorrelated := s), individual, compound);
    } else if !NoTies(individual.suppressed, TriagedAtMost) {
      TwoSortedForms(individual.suppressed, TriagedAtMost);
      var s :| SortedPermutation(s, individual.suppressed, TriagedAtMost) && s != d.suppressedFindings;
      assert Displays(d.(suppressedFindings := s), individual, compound);
    } else {
      TwoSortedForms(compound.suppressed, TriagedAtMost);
      var s :| SortedPermutation(s, compound.suppressed, TriagedAtMost) && s != d.suppressedCorrelated;
      assert Displays(d.(suppressedCorrelated := s), individual, compound);
    }
  }

  /** A run that visits the surfaces in some order may end with this display. */
  ghost predicate MayDisplay(fs: seq<Finding>, setting: Setting, d: ReportTriage) {
    exists order :: VisitsEach(order, SurfaceKeys(fs)) && Displays(d, InOrder(fs, {}), CompoundPass(fs, order, setting))
  }

  /** The tail of a scan and its triage: what the slots of the checkers lead to. */
  method FinishScan(results: seq<TaskResult<Finding>>, setting: Setting) returns (d: ReportTriage, errs: seq<(nat, string)>)
    ensures MayDisplay(FindingsOf(results, setting), setting, d)
    ensures errs == Failures(results)
  {
    var raw;
    raw, errs := Collect(results);
    var findings, correlated := AssembleReport(raw, setting.surfaces, setting.rules, setting.within);
    d := ClassifyReportFindings(findings, correlated);
    ghost var order :| VisitsEach(order, SurfaceKeys(findings)) && correlated == CompoundsOf(findings, order, setting);
  }

  /** What some run may display displays the passes of the given order. */
  lemma {:induction false} DisplaysAnyOrder(fs: seq<Finding>, order: seq<string>, setting: Setting, d: ReportTriage)
    requires VisitsEach(order, SurfaceKeys(fs)) && SettledScan(fs, order, setting)
    ensures MayDisplay(fs, setting, d) <==> Displays(d, InOrder(fs, {}), CompoundPass(fs, order, setting))
  {
    if MayDisplay(fs, setting, d) {
      var o2 :| VisitsEach(o2, SurfaceKeys(fs)) && Displays(d, InOrder(fs, {}), CompoundPass(fs, o2, setting));
      ReportIsOrderIndependent(fs, setting.surfaces, setting.within, setting.rules, order, o2, InOrder(fs, {}).codes);
    }
  }

  /**
    Sorting for display makes all runs show the same report if and only if no two
    different entries of a list agree on all the keys it is sorted by.
  */
  lemma {:induction false} DisplayUniqueIff(fs: seq<Finding>, order: seq<string>, setting: Setting)
    requires VisitsEach(order, SurfaceKeys(fs)) && SettledScan(fs, order, setting)
    ensures (forall d1, d2 :: MayDisplay(fs, setting, d1) && MayDisplay(fs, setting, d2) ==> d1 == d2)
       <==> NothingTies(InOrder(fs, {}), CompoundPass(fs, order, setting))
  {
    var individual, compound := InOrder(fs, {}), CompoundPass(fs, order, setting);
    if NothingTies(individual, compound) {
      forall d1, d2 | MayDisplay(fs, setting, d1) && MayDisplay(fs, setting, d2)
        ensures d1 == d2
      {
        DisplaysAnyOrder(fs, order, setting, d1);
        DisplaysAnyOrder(fs, order, setting, d2);
        OneDisplay(individual, compound, d1, d2);
      }
    } else {
      TwoDisplays(individual, compound);
      var d1, d2 :| Displays(d1, individual, compound) && Displays(d2, individual, compound) && d1 != d2;
      DisplaysAnyOrder(fs, order, setting, d1);
      DisplaysAnyOrder(fs, order, setting, d2);
    }
  }

  // ---------- Two displays of the same findings ----------

  /** A high-severity finding of the module with this key. */
  function ModuleFinding(key: string): Finding {
    Finding("code", HIGH, "", key, key, LocalModule, "", "", "", [], [])
  }

  const NO_SETTING := Setting([], [], (a, b) => false)

  lemma {:induction false} OneSurfaceBuilds(fs: seq<Finding>, key: string) returns (b: Built)
    requires key != "" && Group(fs, key) == [ModuleFinding(key), ModuleFinding(key)]
    ensures SurfaceBuilt([], fs, key) == [b]
    ensures b.compound.severity == CRITICAL && b.compound.filePath == "" && b.compound.checker == CHECKER
    ensures b.compound.title == "High-severity finding combined with other issues"
    ensures b.compound.surfaceID == key && b.compound.code !in PolicyCodes()
    ensures forall g :: g in b.inputs ==> g == ModuleFinding(key)
    ensures b.inputs != []
  {
    b := EscalationOfTwo(key, ModuleFinding(key));
    EscalationCodesApart(b.compound.code);
    assert RuleFindings([], key, key, Group(fs, key)) == [];
  }

  lemma {:induction false} GroupTwoMore(fs: seq<Finding>, f: Finding, key: string)
    ensures Group(fs + [f, f], key) == Group(fs, key) + if SurfaceKeyOf(f) == key then [f, f] else []
  {
    assert fs + [f, f] == fs + [f] + [f];
    hide Group, SurfaceKeyOf;
    GroupSnoc(fs, f, key);
    GroupSnoc(fs + [f], f, key);
  }

  lemma {:induction false} GroupOfFour(f: Finding, g: Finding, key: string)
    ensures Group([f, f, g, g], key)
         == (if SurfaceKeyOf(f) == key then [f, f] else []) + (if SurfaceKeyOf(g) == key then [g, g] else [])
  {
    assert [] + [f, f] == [f, f] && [f, f] + [g, g] == [f, f, g, g];
    assert Group([], key) == [];
    hide Group, SurfaceKeyOf;
    GroupTwoMore([], f, key);
    GroupTwoMore([f, f], g, key);
  }

  lemma {:induction false} BuiltOfTwo(fs: seq<Finding>, x: string, y: string)
    ensures BuiltInOrder([], fs, [x, y]) == SurfaceBuilt([], fs, x) + SurfaceBuilt([], fs, y)
  {
    assert [x][..0] == [] && BuiltInOrder([], fs, [x]) == SurfaceBuilt([], fs, x);
    assert [x, y][..1] == [x];
  }

  /**
    The title is not a final tiebreaker: when a rule fires on two surfaces, its two
    compounds differ, though they agree on severity, file path, checker and title.
  */
  lemma CompoundsOfOneRuleTie(r: Rule, setting: Setting, id1: string, key1: string, fs1: seq<Finding>,
                              id2: string, key2: string, fs2: seq<Finding>)
    requires id1 != id2
    ensures var c1 := Enriched(FromRule(r, id1, key1, fs1).compound, setting.surfaces, setting.within);
      var c2 := Enriched(FromRule(r, id2, key2, fs2).compound, setting.surfaces, setting.within);
      c1 != c2 && SameKeys(c1, c2)
  {
  }

  /** A compound of module findings without an excused code is confirmed. */
  lemma {:induction false} ConfirmedCompound(fs: seq<Finding>, order: seq<string>, b: Built)
    requires Individual(fs) && VisitsEach(order, SurfaceKeys(fs)) && SettledScan(fs, order, NO_SETTING)
    requires b in BuiltInOrder([], fs, order) && b.compound.code !in PolicyCodes()
    requires b.inputs != [] && forall g :: g in b.inputs ==> !ExcusedSomewhere(fs, g.code)
    ensures b.compound in CompoundPass(fs, order, NO_SETTING).confirmed
  {
    var built := BuiltInOrder([], fs, order);
    var i :| 0 <= i < |built| && built[i] == b;
    EachIsBuilt([], fs, order, b);
    PreparedIsMap(built, [], NO_SETTING.within, i);
    CompoundSuppressedIff(fs, [], NO_SETTING.within, [], order, b);
    assert b.inputs[0] in b.inputs;
    Triage.GrowthIsHarmless(CompoundsOf(fs, order, NO_SETTING), InOrder(fs, {}).codes);
    assert CompoundsOf(fs, order, NO_SETTING)[i] == b.compound;
  }

  lemma CodeOfModuleFindings(fs: seq<Finding>, x: string, y: string)
    requires forall h :: h in fs ==> h == ModuleFinding(x) || h == ModuleFinding(y)
    ensures NoCompoundCode(fs, []) && Individual(fs) && !ExcusedSomewhere(fs, "code")
  {
    forall h | h in fs
      ensures CodeOrDefault(h) !in CompoundCodes([]) && !Excused(h)
    {
    }
  }

  /** Two high-severity findings in each of two modules. */
  function FourFindings(x: string, y: string): seq<Finding> {
    [ModuleFinding(x), ModuleFinding(x), ModuleFinding(y), ModuleFinding(y)]
  }

  lemma {:induction false} FourFindingsSettled(x: string, y: string)
    requires x != "" && y != "" && x != y
    ensures var fs := FourFindings(x, y);
      && Individual(fs) && !ExcusedSomewhere(fs, "code")
      && VisitsEach([x, y], SurfaceKeys(fs)) && SettledScan(fs, [x, y], NO_SETTING)
  {
    var fs := FourFindings(x, y);
    assert fs[0] in fs && fs[2] in fs;
    assert VisitsEach([x, y], SurfaceKeys(fs));
    CodeOfModuleFindings(fs, x, y);
    CompoundsAreSettled(fs, [], NO_SETTING.within, [], [x, y], InOrder(fs, {}).codes);
  }

  lemma {:induction false} FourFindingsTie(x: string, y: string)
    requires x != "" && y != "" && x != y
    ensures !NothingTies(InOrder(FourFindings(x, y), {}), CompoundPass(FourFindings(x, y), [x, y], NO_SETTING))
  {
    var fs, order := FourFindings(x, y), [x, y];
    FourFindingsSettled(x, y);
    GroupOfFour(ModuleFinding(x), ModuleFinding(y), x);
    GroupOfFour(ModuleFinding(x), ModuleFinding(y), y);
    var a := OneSurfaceBuilds(fs, x);
    var b := OneSurfaceBuilds(fs, y);
    BuiltOfTwo(fs, x, y);
    assert a in BuiltInOrder([], fs, order) && b in BuiltInOrder([], fs, order);
    ConfirmedCompound(fs, order, a);
    ConfirmedCompound(fs, order, b);
    assert SameKeys(a.compound, b.compound) && a.compound != b.compound;
  }

  /** On these findings two runs may display different reports. */
  lemma {:induction false} FourFindingsTwoDisplays(x: string, y: string)
    requires x != "" && y != "" && x != y
    ensures exists d1, d2 ::
      MayDisplay(FourFindings(x, y), NO_SETTING, d1) && MayDisplay(FourFindings(x, y), NO_SETTING, d2) && d1 != d2
  {
    var fs := FourFindings(x, y);
    var individual, compound := InOrder(fs, {}), CompoundPass(fs, [x, y], NO_SETTING);
    FourFindingsSettled(x, y);
    FourFindingsTie(x, y);
    TwoDisplays(individual, compound);
    var d1, d2 :| Displays(d1, individual, compound) && Displays(d2, individual, compound) && d1 != d2;
    DisplaysAnyOrder(fs, [x, y], NO_SETTING, d1);
    DisplaysAnyOrder(fs, [x, y], NO_SETTING, d2);
  }
}
