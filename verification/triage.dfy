/**
  The deterministic triage policy: the first matching rule decides, and a set of
  suppressed codes grows while the findings, and then the compounds, are classified.
*/
module Triage {
  import opened FindingOrder
  import opened Findings
  import opened Permutations
  import opened Sifting
  import opened Sorting

  datatype Disposition = Confirmed | Suppressed
  datatype PolicyRule = R1 | R2 | R3 | R4 | R5 | R6 | R7 | R8 | R9 | R10 | R11 | R12

  datatype TriagedFinding = TriagedFinding(finding: Finding, disposition: Disposition, rule: PolicyRule)

  datatype ReportTriage = ReportTriage(
    confirmedFindings: seq<Finding>,
    confirmedCorrelated: seq<Finding>,
    suppressedFindings: seq<TriagedFinding>,
    suppressedCorrelated: seq<TriagedFinding>)

  predicate IsModule(kind: SurfaceKind) {
    kind == LocalModule || kind == VendoredModule || kind == GlobalModule
  }

  predicate IsRoot(kind: SurfaceKind) {
    kind == Unset || kind == RootInvowkfile
  }

  /** All codes a compound was built from are known as suppressed, and there is at least one. */
  predicate ConstituentsSuppressed(f: Finding, suppressed: set<string>) {
    f.escalatedFromCodes != [] && forall c :: c in f.escalatedFromCodes ==> c != "" && c in suppressed
  }

  function Classify(f: Finding, suppressed: set<string>): TriagedFinding {
    if IsModule(f.surfaceKind) then TriagedFinding(f, Confirmed, R1)
    else if f.code == CODE_NETWORK_REVERSE_SHELL then TriagedFinding(f, Confirmed, R2)
    else if f.code == CODE_SCRIPT_REMOTE_EXECUTION then TriagedFinding(f, Confirmed, R3)
    else if f.code == CODE_LOCKFILE_CONTENT_HASH_MISMATCH then TriagedFinding(f, Confirmed, R4)
    else if f.code == CODE_SYMLINK_ESCAPES_ROOT then TriagedFinding(f, Confirmed, R5)
    else if IsRoot(f.surfaceKind) && f.code == CODE_ENV_INHERIT_DEFAULT_ALL then TriagedFinding(f, Suppressed, R7)
    else if IsRoot(f.surfaceKind) && f.code == CODE_ENV_SENSITIVE_VAR then TriagedFinding(f, Suppressed, R8)
    else if IsRoot(f.surfaceKind) && f.code == CODE_NETWORK_DNS_EXFILTRATION then TriagedFinding(f, Suppressed, R9)
    else if IsRoot(f.surfaceKind) && ConstituentsSuppressed(f, suppressed) then
      TriagedFinding(f, Suppressed,
                     if f.code == CODE_CREDENTIAL_EXFILTRATION then R10
                     else if f.code == CODE_HIGH_PLUS_OTHER then R11 else R6)
    else TriagedFinding(f, Confirmed, R12)
  }

  predicate IsSuppressed(f: Finding, suppressed: set<string>) {
    Classify(f, suppressed).disposition == Suppressed
  }

  /** What the policy decides, and which rule it names for it. */
  lemma PolicyExact(f: Finding, suppressed: set<string>)
    ensures var t := Classify(f, suppressed);
      var ofModule := f.surfaceKind in {LocalModule, VendoredModule, GlobalModule};
      var ofRoot := f.surfaceKind in {Unset, RootInvowkfile};
      var builtFromSuppressed :=
        f.escalatedFromCodes != [] && forall c :: c in f.escalatedFromCodes ==> c != "" && c in suppressed;
      && t.finding == f
      && (t.rule == R1 <==> ofModule)
      && (t.rule == R2 <==> !ofModule && f.code == CODE_NETWORK_REVERSE_SHELL)
      && (t.rule == R3 <==> !ofModule && f.code == CODE_SCRIPT_REMOTE_EXECUTION)
      && (t.rule == R4 <==> !ofModule && f.code == CODE_LOCKFILE_CONTENT_HASH_MISMATCH)
      && (t.rule == R5 <==> !ofModule && f.code == CODE_SYMLINK_ESCAPES_ROOT)
      && (t.rule == R7 <==> ofRoot && f.code == CODE_ENV_INHERIT_DEFAULT_ALL)
      && (t.rule == R8 <==> ofRoot && f.code == CODE_ENV_SENSITIVE_VAR)
      && (t.rule == R9 <==> ofRoot && f.code == CODE_NETWORK_DNS_EXFILTRATION)
      && (t.rule in {R6, R10, R11} <==> ofRoot && builtFromSuppressed && t.rule !in {R2, R3, R4, R5, R7, R8, R9})
      && (t.rule == R10 ==> f.code == CODE_CREDENTIAL_EXFILTRATION)
      && (t.rule == R11 ==> f.code == CODE_HIGH_PLUS_OTHER)
      && (t.rule == R6 ==> f.code != CODE_CREDENTIAL_EXFILTRATION && f.code != CODE_HIGH_PLUS_OTHER)
      && (t.disposition == Suppressed <==> t.rule in {R6, R7, R8, R9, R10, R11})
  {
  }

  // ---------- The classification loop ----------

  datatype Pass = Pass(confirmed: seq<Finding>, suppressed: seq<TriagedFinding>, codes: set<string>)

  /** Classifying a list in order, starting with the given suppressed codes. */
  function InOrder(fs: seq<Finding>, codes: set<string>): Pass {
    if fs == [] then Pass([], [], codes)
    else
      var p, f := InOrder(fs[..|fs| - 1], codes), fs[|fs| - 1];
      var t := Classify(f, p.codes);
      if t.disposition == Suppressed then Pass(p.confirmed, p.suppressed + [t], Remember(p.codes, f.code))
      else Pass(p.confirmed + [f], p.suppressed, p.codes)
  }

  method ClassifyInOrder(fs: seq<Finding>, codes: set<string>) returns (p: Pass)
    ensures p == InOrder(fs, codes)
  {
    p := Pass([], [], codes);
    for i := 0 to |fs|
      invariant p == InOrder(fs[..i], codes)
    {
      assert fs[..i + 1][..i] == fs[..i];
      var classified := Classify(fs[i], p.codes);
      if classified.disposition == Suppressed {
        p := p.(suppressed := p.suppressed + [classified], codes := Remember(p.codes, fs[i].code));
        continue;
      }
      p := p.(confirmed := p.confirmed + [fs[i]]);
    }
    assert fs[..|fs|] == fs;
  }

  /** The findings without their classification. */
  function Plain(ts: seq<TriagedFinding>): (r: seq<Finding>)
    ensures |r| == |ts|
  {
    seq(|ts|, i requires 0 <= i < |ts| => ts[i].finding)
  }

  /** Every finding ends in exactly one list, as often as it was reported. */
  lemma {:induction false} NothingLost(fs: seq<Finding>, codes: set<string>)
    ensures var p := InOrder(fs, codes);
      multiset(p.confirmed) + multiset(Plain(p.suppressed)) == multiset(fs)
  {
    if fs == [] {
    } else {
      var front, f := fs[..|fs| - 1], fs[|fs| - 1];
      assert fs == front + [f];
      NothingLost(front, codes);
      var p, q := InOrder(front, codes), InOrder(fs, codes);
      if q.suppressed != p.suppressed {
        assert Plain(q.suppressed) == Plain(p.suppressed) + [f];
      }
    }
  }

  // ---------- The display order of triaged findings ----------

  function RuleName(rule: PolicyRule): string {
    match rule
    case R1 => "R1"
    case R2 => "R2"
    case R3 => "R3"
    case R4 => "R4"
    case R5 => "R5"
    case R6 => "R6"
    case R7 => "R7"
    case R8 => "R8"
    case R9 => "R9"
    case R10 => "R10"
    case R11 => "R11"
    case R12 => "R12"
  }

  lemma RuleNamesDiffer(a: PolicyRule, b: PolicyRule)
    ensures RuleName(a) == RuleName(b) <==> a == b
  {
  }

  /** The comparison of `sortTriagedFindings`: that of findings, then the rule's name. */
  predicate TriagedAtMost(a: TriagedFinding, b: TriagedFinding) {
    if SameKeys(a.finding, b.finding) then !Before(RuleName(b.rule), RuleName(a.rule))
    else AtMost(a.finding, b.finding)
  }

  lemma TriagedAtMostIsTotal(a: TriagedFinding, b: TriagedFinding)
    ensures TriagedAtMost(a, b) || TriagedAtMost(b, a)
    ensures TriagedAtMost(a, b) && TriagedAtMost(b, a)
       <==> SameKeys(a.finding, b.finding) && RuleName(a.rule) == RuleName(b.rule)
  {
    AtMostIsTotal(a.finding, b.finding);
    BeforeIsStrictTotal(RuleName(a.rule), RuleName(b.rule));
  }

  lemma TriagedAtMostIsTransitive()
    ensures forall a, b, c :: TriagedAtMost(a, b) && TriagedAtMost(b, c) ==> TriagedAtMost(a, c)
  {
    forall a, b, c | TriagedAtMost(a, b) && TriagedAtMost(b, c)
      ensures TriagedAtMost(a, c)
    {
      AtMostIsTotal(a.finding, b.finding);
      AtMostIsTotal(b.finding, c.finding);
      AtMostIsTotal(a.finding, c.finding);
      AtMostIsTransitive(a.finding, b.finding, c.finding);
      if SameKeys(a.finding, b.finding) && SameKeys(b.finding, c.finding) {
        NotAfterIsTransitive(RuleName(a.rule), RuleName(b.rule), RuleName(c.rule));
      } else if SameKeys(a.finding, c.finding) {
        AtMostIsTransitive(c.finding, a.finding, b.finding);
        AtMostIsTransitive(b.finding, c.finding, a.finding);
      }
    }
  }

  lemma TriagedAtMostIsTotalPreorder()
    ensures TotalPreorder(TriagedAtMost)
  {
    forall a, b ensures TriagedAtMost(a, b) || TriagedAtMost(b, a) {
      TriagedAtMostIsTotal(a, b);
    }
    TriagedAtMostIsTransitive();
  }

  lemma PlainOfSame(a: seq<TriagedFinding>, b: seq<TriagedFinding>)
    requires multiset(a) == multiset(b)
    ensures multiset(Plain(a)) == multiset(Plain(b))
  {
    var plain := (t: TriagedFinding) => t.finding;
    MapOfSame(a, b, plain);
    assert Plain(a) == Map(a, plain) && Plain(b) == Map(b, plain);
  }

  /** Findings that agree on the four keys stand in the order of their rules' names. */
  ghost predicate TiesByRule(ts: seq<TriagedFinding>) {
    forall i, j :: 0 <= i < j < |ts| && SameKeys(ts[i].finding, ts[j].finding) ==>
      !Before(RuleName(ts[j].rule), RuleName(ts[i].rule))
  }

  lemma TriagedInDisplayOrder(ts: seq<TriagedFinding>)
    requires Sorted(ts, TriagedAtMost)
    ensures InDisplayOrder(Plain(ts)) && TiesByRule(ts)
  {
    forall i, j | 0 <= i < j < |ts|
      ensures AtMost(ts[i].finding, ts[j].finding)
    {
      assert TriagedAtMost(ts[i], ts[j]);
      AtMostIsTotal(ts[i].finding, ts[j].finding);
    }
    SortedInDisplayOrder(Plain(ts));
  }

  method SortTriagedFindings(findings: seq<TriagedFinding>) returns (sorted: seq<TriagedFinding>)
    ensures SortedPermutation(sorted, findings, TriagedAtMost)
    ensures multiset(Plain(sorted)) == multiset(Plain(findings))
    ensures InDisplayOrder(Plain(sorted)) && TiesByRule(sorted)
  {
    TriagedAtMostIsTotalPreorder();
    sorted := SortFunc(findings, TriagedAtMost);
    PlainOfSame(sorted, findings);
    TriagedInDisplayOrder(sorted);
  }

  /** The report lists what the two loops decided, each list sorted for display. */
  ghost predicate Displays(t: ReportTriage, individual: Pass, compound: Pass) {
    && SortedPermutation(t.confirmedFindings, individual.confirmed, AtMost)
    && SortedPermutation(t.confirmedCorrelated, compound.confirmed, AtMost)
    && SortedPermutation(t.suppressedFindings, individual.suppressed, TriagedAtMost)
    && SortedPermutation(t.suppressedCorrelated, compound.suppressed, TriagedAtMost)
  }

  /** `ClassifyReportFindings`. */
  method ClassifyReportFindings(findings: seq<Finding>, correlated: seq<Finding>) returns (t: ReportTriage)
    ensures Displays(t, InOrder(findings, {}), InOrder(correlated, InOrder(findings, {}).codes))
    ensures multiset(t.confirmedFindings) + multiset(Plain(t.suppressedFindings)) == multiset(findings)
    ensures multiset(t.confirmedCorrelated) + multiset(Plain(t.suppressedCorrelated)) == multiset(correlated)
  {
    var individual := ClassifyInOrder(findings, {});
    var compound := ClassifyInOrder(correlated, individual.codes);
    NothingLost(findings, {});
    NothingLost(correlated, individual.codes);
    var confirmedFindings := SortFindings(individual.confirmed);
    var confirmedCorrelated := SortFindings(compound.confirmed);
    var suppressedFindings := SortTriagedFindings(individual.suppressed);
    var suppressedCorrelated := SortTriagedFindings(compound.suppressed);
    t := ReportTriage(confirmedFindings, confirmedCorrelated, suppressedFindings, suppressedCorrelated);
  }

  // ---------- When the order of classification matters ----------

  /** Triage as a sifting: suppressed findings are dropped, and their codes remembered. */
  function Policy(): Judge<Finding> {
    Judge((f: Finding, codes: set<string>) => IsSuppressed(f, codes), (f: Finding) => f.code)
  }

  /** Knowing more suppressed codes never rescues a finding. */
  lemma PolicyIsMonotone()
    ensures Monotone(Policy())
  {
  }

  /** How a finding is suppressed, whenever it is. */
  function AsSuppressed(f: Finding): TriagedFinding {
    TriagedFinding(f, Suppressed,
                   if f.code == CODE_ENV_INHERIT_DEFAULT_ALL then R7
                   else if f.code == CODE_ENV_SENSITIVE_VAR then R8
                   else if f.code == CODE_NETWORK_DNS_EXFILTRATION then R9
                   else if f.code == CODE_CREDENTIAL_EXFILTRATION then R10
                   else if f.code == CODE_HIGH_PLUS_OTHER then R11 else R6)
  }

  lemma SuppressedInOneWay(f: Finding, codes: set<string>)
    requires IsSuppressed(f, codes)
    ensures Classify(f, codes) == AsSuppressed(f)
  {
  }

  lemma {:induction false} InOrderSifts(fs: seq<Finding>, codes: set<string>)
    ensures var p, s := InOrder(fs, codes), Sift(fs, codes, Policy());
      && p.confirmed == s.kept && p.codes == s.codes
      && p.suppressed == Map(s.dropped, AsSuppressed) && Plain(p.suppressed) == s.dropped
  {
    if fs == [] {
    } else {
      var front, f := fs[..|fs| - 1], fs[|fs| - 1];
      InOrderSifts(front, codes);
      var p, q := InOrder(front, codes), InOrder(fs, codes);
      assert Policy().drops(f, p.codes) == IsSuppressed(f, p.codes);
      if IsSuppressed(f, p.codes) {
        SuppressedInOneWay(f, p.codes);
        assert Plain(q.suppressed) == Plain(p.suppressed) + [f];
      }
    }
  }

  /** When no finding is suppressed only for gathered codes, each is classified as if it came first. */
  lemma {:induction false} GrowthIsHarmless(fs: seq<Finding>, codes: set<string>)
    requires Settled(fs, codes, Policy())
    ensures var p := InOrder(fs, codes);
      && (forall f :: f in p.confirmed <==> f in fs && !IsSuppressed(f, codes))
      && (forall f :: f in Plain(p.suppressed) <==> f in fs && IsSuppressed(f, codes))
      && p.codes == Gathered(fs, codes, Policy())
  {
    PolicyIsMonotone();
    InOrderSifts(fs, codes);
    Sifting.GrowthIsHarmless(fs, fs, codes, Policy());
    SelectMembers(fs, codes, false, Policy());
    SelectMembers(fs, codes, true, Policy());
  }

  ghost predicate SameTriage(p: Pass, q: Pass) {
    && multiset(p.confirmed) == multiset(q.confirmed)
    && multiset(p.suppressed) == multiset(q.suppressed)
  }

  /** Settled findings give the same confirmed and suppressed multisets in every order. */
  lemma {:induction false} TriageIsOrderIndependent(a: seq<Finding>, b: seq<Finding>, codes: set<string>)
    requires multiset(a) == multiset(b) && Settled(a, codes, Policy())
    ensures SameTriage(InOrder(a, codes), InOrder(b, codes)) && InOrder(a, codes).codes == InOrder(b, codes).codes
  {
    PolicyIsMonotone();
    InOrderSifts(a, codes);
    InOrderSifts(b, codes);
    SettledInAnyOrder(a, b, codes, Policy());
    MapOfSame(Sift(a, codes, Policy()).dropped, Sift(b, codes, Policy()).dropped, AsSuppressed);
  }

  /**
    All orders of the findings lead to the same confirmed and suppressed multisets if
    and only if no finding is suppressed by gathered codes that is not suppressed by
    the initial ones.
  */
  lemma {:induction false} OrderIrrelevantIffSettled(fs: seq<Finding>, codes: set<string>)
    ensures (forall b :: multiset(b) == multiset(fs) ==> SameTriage(InOrder(fs, codes), InOrder(b, codes)))
       <==> Settled(fs, codes, Policy())
  {
    if Settled(fs, codes, Policy()) {
      forall b | multiset(b) == multiset(fs)
        ensures SameTriage(InOrder(fs, codes), InOrder(b, codes))
      {
        TriageIsOrderIndependent(fs, b, codes);
      }
    } else {
      PolicyIsMonotone();
      var b := OtherVerdicts(fs, codes, Policy());
      InOrderSifts(fs, codes);
      InOrderSifts(b, codes);
    }
  }

  /** No finding was built from the code of another finding in the list. */
  ghost predicate Independent(fs: seq<Finding>) {
    forall f, g :: f in fs && g in fs ==> g.code !in f.escalatedFromCodes
  }

  lemma IndependentIsSettled(fs: seq<Finding>, codes: set<string>)
    requires Independent(fs)
    ensures Settled(fs, codes, Policy())
  {
    forall f | f in fs && IsSuppressed(f, Gathered(fs, codes, Policy()))
      ensures IsSuppressed(f, codes)
    {
      assert forall c :: c in f.escalatedFromCodes && c in Gathered(fs, codes, Policy()) ==> c in codes;
    }
  }

  /** The codes that are confirmed by name, on every surface. */
  function ConfirmedCodes(): set<string> {
    {CODE_NETWORK_REVERSE_SHELL, CODE_SCRIPT_REMOTE_EXECUTION, CODE_LOCKFILE_CONTENT_HASH_MISMATCH,
     CODE_SYMLINK_ESCAPES_ROOT}
  }

  /** The codes that are suppressed by name, on root surfaces. */
  function ExcusedCodes(): set<string> {
    {CODE_ENV_INHERIT_DEFAULT_ALL, CODE_ENV_SENSITIVE_VAR, CODE_NETWORK_DNS_EXFILTRATION}
  }

  /** The seven codes the policy decides by name. */
  function PolicyCodes(): set<string> {
    ConfirmedCodes() + ExcusedCodes()
  }

  lemma RootFinding(f: Finding, codes: set<string>)
    requires IsRoot(f.surfaceKind)
    ensures IsSuppressed(f, codes)
       <==> f.code !in ConfirmedCodes() && (f.code in ExcusedCodes() || ConstituentsSuppressed(f, codes))
  {
  }

  lemma NonRootFinding(f: Finding, codes: set<string>)
    requires !IsRoot(f.surfaceKind)
    ensures !IsSuppressed(f, codes)
  {
  }

  lemma TwoInOrder(a: Finding, b: Finding, codes: set<string>)
    ensures var p := InOrder([a], codes);
      InOrder([a, b], codes).confirmed == p.confirmed + if IsSuppressed(b, p.codes) then [] else [b]
    ensures InOrder([a], codes).confirmed == if IsSuppressed(a, codes) then [] else [a]
    ensures InOrder([a], codes).codes == if IsSuppressed(a, codes) then Remember(codes, a.code) else codes
  {
    assert [a, b][..1] == [a] && [a][..0] == [];
  }

  /**
    In general the order does matter: a compound built from another compound's code is
    suppressed after it and confirmed before it.
  */
  lemma OrderMattersInGeneral(a: Finding, b: Finding, codes: set<string>)
    requires IsRoot(a.surfaceKind) && IsRoot(b.surfaceKind) && {a.code, b.code} !! PolicyCodes()
    requires a.code != "" && a.code !in codes && b.escalatedFromCodes == [a.code]
    requires ConstituentsSuppressed(a, codes)
    ensures InOrder([a, b], codes).confirmed == [] && InOrder([b, a], codes).confirmed == [b]
  {
    RootFinding(a, codes);
    RootFinding(b, codes);
    RootFinding(b, codes + {a.code});
    TwoInOrder(a, b, codes);
    TwoInOrder(b, a, codes);
  }
}
