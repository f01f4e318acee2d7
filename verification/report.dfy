/**
  From raw findings to the triaged report: enrichment, codes, correlation and triage
  together. A compound is suppressed exactly when everything it was built from was,
  and the order in which surfaces are correlated changes nothing.
*/
module Report {
  import opened Findings
  import opened Surfaces
  import opened CorrelationRules
  import opened SeverityEscalation
  import opened Correlator
  import CorrelationOrder
  import opened Permutations
  import opened Sifting
  import opened Triage
  import opened Wrappers

  /** Identity and codes filled in, as the scanner does for findings and for compounds. */
  function Prepared(fs: seq<Finding>, surfaces: seq<SurfaceIdentity>, within: (string, string) -> bool): (r: seq<Finding>)
    ensures |r| == |fs|
  {
    WithCodes(AllEnriched(fs, surfaces, within))
  }

  method Prepare(fs: seq<Finding>, surfaces: seq<SurfaceIdentity>, within: (string, string) -> bool)
    returns (r: seq<Finding>)
    ensures r == Prepared(fs, surfaces, within)
  {
    var a := new Finding[|fs|](i requires 0 <= i < |fs| => fs[i]);
    assert a[..] == fs;
    EnrichFindings(a, surfaces, within);
    EnsureFindingCodes(a);
    r := a[..];
  }

  /** The tail of `Scan`: what becomes of the findings the checkers returned. */
  method AssembleReport(raw: seq<Finding>, surfaces: seq<SurfaceIdentity>, rules: seq<Rule>,
                        within: (string, string) -> bool)
    returns (findings: seq<Finding>, correlated: seq<Finding>)
    ensures findings == Prepared(raw, surfaces, within)
    ensures exists order :: VisitsEach(order, SurfaceKeys(findings))
              && correlated == Prepared(Compounds(BuiltInOrder(rules, findings, order)), surfaces, within)
  {
    findings := Prepare(raw, surfaces, within);
    correlated := Correlate(rules, findings);
    correlated := Prepare(correlated, surfaces, within);
  }

  // ---------- What a compound carries ----------

  function CompoundCodes(rules: seq<Rule>): set<string> {
    (set r | r in rules :: RuleCode(r)) + {CODE_MULTIPLE_CATEGORIES, CODE_HIGH_PLUS_OTHER, CODE_MEDIUM_PLUS_MEDIUM}
  }

  /** The facts about a compound that triage depends on. */
  ghost predicate BuiltOn(rules: seq<Rule>, fs: seq<Finding>, key: string, b: Built) {
    var group := Group(fs, key);
    && key in SurfaceKeys(fs)
    && (forall g :: g in b.inputs ==> g in group)
    && b.compound.escalatedFromCodes == Distinct(Codes(b.inputs))
    && b.compound.code in CompoundCodes(rules) && b.compound.code != ""
    && b.compound.surfaceID == SurfaceIDOf(key, group) && b.compound.surfaceKind == Unset
  }

  lemma {:induction false} MatchingAreMembers(r: Rule, fs: seq<Finding>)
    ensures forall f :: f in Matching(r, fs) ==> f in fs
  {
    if fs == [] {
    } else {
      MatchingAreMembers(r, fs[..|fs| - 1]);
    }
  }

  lemma {:induction false} RuleFindingsAreBuilt(rules: seq<Rule>, used: seq<Rule>, fs: seq<Finding>, key: string)
    requires key in SurfaceKeys(fs) && (forall r :: r in used ==> r in rules)
    ensures forall b :: b in RuleFindings(used, SurfaceIDOf(key, Group(fs, key)), key, Group(fs, key)) ==>
      BuiltOn(rules, fs, key, b)
  {
    if used == [] {
    } else {
      var group := Group(fs, key);
      var id := SurfaceIDOf(key, group);
      var front, r := used[..|used| - 1], used[|used| - 1];
      RuleFindingsAreBuilt(rules, front, fs, key);
      MatchingAreMembers(r, group);
      assert RuleCode(r) in CompoundCodes(rules);
      assert BuiltOn(rules, fs, key, FromRule(r, id, key, group));
    }
  }

  lemma {:induction false} EscalationIsBuilt(rules: seq<Rule>, fs: seq<Finding>, key: string, b: Built)
    requires key in SurfaceKeys(fs)
    requires b in EscalationFindings(SurfaceIDOf(key, Group(fs, key)), key, Group(fs, key))
    ensures BuiltOn(rules, fs, key, b)
  {
  }

  lemma {:induction false} EachIsBuilt(rules: seq<Rule>, fs: seq<Finding>, order: seq<string>, b: Built)
    requires forall k :: k in order ==> k in SurfaceKeys(fs)
    requires b in BuiltInOrder(rules, fs, order)
    ensures exists key :: BuiltOn(rules, fs, key, b)
  {
    var front, key := order[..|order| - 1], order[|order| - 1];
    var group := Group(fs, key);
    if b in BuiltInOrder(rules, fs, front) {
      EachIsBuilt(rules, fs, front, b);
    } else if b in RuleFindings(rules, SurfaceIDOf(key, group), key, group) {
      RuleFindingsAreBuilt(rules, rules, fs, key);
    } else {
      assert b in EscalationFindings(SurfaceIDOf(key, group), key, group);
      EscalationIsBuilt(rules, fs, key, b);
    }
  }

  // ---------- When a compound is suppressed ----------

  /** Findings of checkers: coded, and not built from others. */
  ghost predicate Individual(fs: seq<Finding>) {
    forall f :: f in fs ==> f.code != "" && f.escalatedFromCodes == []
  }

  /** The policy suppresses this code on a root surface without looking at anything else. */
  predicate Excused(f: Finding) {
    IsRoot(f.surfaceKind) && f.code in ExcusedCodes()
  }

  /** Some finding of the report with this code is excused. */
  ghost predicate ExcusedSomewhere(fs: seq<Finding>, code: string) {
    exists f :: f in fs && f.code == code && Excused(f)
  }

  lemma IndividualSuppressedIffExcused(f: Finding, codes: set<string>)
    requires f.escalatedFromCodes == []
    ensures IsSuppressed(f, codes) <==> Excused(f)
  {
  }

  lemma IndividualsAreIndependent(fs: seq<Finding>)
    requires Individual(fs)
    ensures Independent(fs)
  {
  }

  /** The codes gathered from individual findings are those excused somewhere. */
  lemma IndividualCodes(fs: seq<Finding>, code: string)
    requires Individual(fs)
    ensures code in InOrder(fs, {}).codes <==> ExcusedSomewhere(fs, code)
  {
    IndividualsAreIndependent(fs);
    IndependentIsSettled(fs, {});
    Triage.GrowthIsHarmless(fs, {});
    forall f | f in fs
      ensures IsSuppressed(f, {}) <==> Excused(f)
    {
      IndividualSuppressedIffExcused(f, {});
    }
  }

  /** Enrichment and coding keep what triage looks at, apart from the kind. */
  lemma PreparedCompound(b: Built, surfaces: seq<SurfaceIdentity>, within: (string, string) -> bool)
    requires b.compound.code != ""
    ensures var e := Enriched(b.compound, surfaces, within);
      && e.code == b.compound.code && e.escalatedFromCodes == b.compound.escalatedFromCodes
      && e.(code := CodeOrDefault(e)) == e
  {
  }

  lemma InputsAreMembers(rules: seq<Rule>, fs: seq<Finding>, key: string, b: Built)
    requires BuiltOn(rules, fs, key, b)
    ensures forall g :: g in b.inputs ==> g in fs
  {
    GroupExact(fs, key);
  }

  lemma CodesMembers(fs: seq<Finding>, x: string)
    requires forall f :: f in fs ==> f.code != ""
    ensures x in Codes(fs) <==> exists f :: f in fs && f.code == x
  {
    if x in Codes(fs) {
      var i :| 0 <= i < |fs| && Codes(fs)[i] == x;
      assert fs[i] in fs;
    }
    if f :| f in fs && f.code == x {
      var i :| 0 <= i < |fs| && fs[i] == f;
      assert Codes(fs)[i] == x;
    }
  }

  /** The recorded codes of a compound are exactly the codes of its inputs. */
  lemma RecordedCodes(rules: seq<Rule>, fs: seq<Finding>, key: string, b: Built, x: string)
    requires Individual(fs) && BuiltOn(rules, fs, key, b)
    ensures x in b.compound.escalatedFromCodes <==> exists g :: g in b.inputs && g.code == x
  {
    InputsAreMembers(rules, fs, key, b);
    DistinctExact(Codes(b.inputs));
    CodesMembers(b.inputs, x);
  }

  /** All constituents of a compound are known to be suppressed iff the code of every input is excused somewhere. */
  lemma ConstituentsAreInputs(rules: seq<Rule>, fs: seq<Finding>, key: string, b: Built, c: Finding)
    requires Individual(fs) && BuiltOn(rules, fs, key, b) && c.escalatedFromCodes == b.compound.escalatedFromCodes
    ensures ConstituentsSuppressed(c, InOrder(fs, {}).codes)
       <==> b.inputs != [] && forall g :: g in b.inputs ==> ExcusedSomewhere(fs, g.code)
  {
    InputsAreMembers(rules, fs, key, b);
    forall g | g in b.inputs
      ensures g.code in c.escalatedFromCodes
      ensures g.code in InOrder(fs, {}).codes <==> ExcusedSomewhere(fs, g.code)
    {
      RecordedCodes(rules, fs, key, b, g.code);
      IndividualCodes(fs, g.code);
    }
    forall x | x in c.escalatedFromCodes
      ensures exists g :: g in b.inputs && g.code == x
    {
      RecordedCodes(rules, fs, key, b, x);
    }
    if b.inputs != [] {
      assert b.inputs[0] in b.inputs;
    }
    if c.escalatedFromCodes != [] {
      assert c.escalatedFromCodes[0] in c.escalatedFromCodes;
    }
  }

  /** The code of every input, and there is one, is excused somewhere in the report. */
  ghost predicate SuppressedByInputs(fs: seq<Finding>, b: Built) {
    b.inputs != [] && forall g :: g in b.inputs ==> ExcusedSomewhere(fs, g.code)
  }

  lemma {:induction false} BuiltCompoundSuppressedIff(rules: seq<Rule>, fs: seq<Finding>, key: string, b: Built, c: Finding)
    requires Individual(fs) && BuiltOn(rules, fs, key, b)
    requires c.code == b.compound.code && c.escalatedFromCodes == b.compound.escalatedFromCodes
    ensures IsSuppressed(c, InOrder(fs, {}).codes)
       <==> IsRoot(c.surfaceKind) && c.code !in ConfirmedCodes() && (c.code in ExcusedCodes() || SuppressedByInputs(fs, b))
  {
    var codes := InOrder(fs, {}).codes;
    if IsRoot(c.surfaceKind) {
      RootFinding(c, codes);
      ConstituentsAreInputs(rules, fs, key, b, c);
    } else {
      NonRootFinding(c, codes);
    }
  }

  /**
    Whatever the surfaces and the rules are, a compound is suppressed exactly when it
    counts as a root finding, the policy does not confirm its code by name, and either
    excuses its code by name or excuses the code of each of its inputs somewhere in the
    report, not necessarily on the compound's own surface.
  */
  lemma {:induction false} CompoundSuppressedIff(fs: seq<Finding>, surfaces: seq<SurfaceIdentity>,
                                                 within: (string, string) -> bool,
                                                 rules: seq<Rule>, order: seq<string>, b: Built)
    requires Individual(fs)
    requires VisitsEach(order, SurfaceKeys(fs)) && b in BuiltInOrder(rules, fs, order)
    ensures var c := Enriched(b.compound, surfaces, within);
      IsSuppressed(c, InOrder(fs, {}).codes)
      <==> IsRoot(c.surfaceKind) && c.code !in ConfirmedCodes() && (c.code in ExcusedCodes() || SuppressedByInputs(fs, b))
  {
    EachIsBuilt(rules, fs, order, b);
    var key :| BuiltOn(rules, fs, key, b);
    PreparedCompound(b, surfaces, within);
    BuiltCompoundSuppressedIff(rules, fs, key, b, Enriched(b.compound, surfaces, within));
  }

  // ---------- When a compound shares the fate of its inputs ----------

  /** The compound was built from something, all of which is suppressed on its own. */
  ghost predicate AllInputsSuppressed(b: Built) {
    b.inputs != [] && forall g :: g in b.inputs ==> IsSuppressed(g, {})
  }

  lemma InputsSuppressedIffExcused(rules: seq<Rule>, fs: seq<Finding>, key: string, b: Built)
    requires Individual(fs) && BuiltOn(rules, fs, key, b)
    ensures AllInputsSuppressed(b) <==> b.inputs != [] && forall g :: g in b.inputs ==> Excused(g)
  {
    InputsAreMembers(rules, fs, key, b);
    forall g | g in b.inputs
      ensures IsSuppressed(g, {}) <==> Excused(g)
    {
      IndividualSuppressedIffExcused(g, {});
    }
  }

  /** A finding whose code is excused somewhere is excused itself exactly on a root surface. */
  lemma ExcusedIffRoot(fs: seq<Finding>, g: Finding)
    requires ExcusedSomewhere(fs, g.code)
    ensures Excused(g) <==> IsRoot(g.surfaceKind)
  {
  }

  /** Some input is not excused, or there is none. */
  ghost predicate SomeInputCounts(b: Built) {
    b.inputs == [] || exists g :: g in b.inputs && !Excused(g)
  }

  /** Where the policy decides the compound's code by name, it decides as for the inputs. */
  ghost predicate NamedLikeInputs(b: Built, c: Finding) {
    && (c.code in ConfirmedCodes() ==> SomeInputCounts(b))
    && (c.code in ExcusedCodes() ==> !SomeInputCounts(b))
  }

  lemma NamedCodesApart(code: string)
    ensures !(code in ConfirmedCodes() && code in ExcusedCodes())
  {
  }

  /**
    Exactly when a compound is suppressed if and only if all its inputs are. One that
    does not count as a root finding must have an input that is not excused. One whose
    code the policy names must be decided like its inputs. Any other must have a code
    that is excused nowhere, or only root findings as inputs.
  */
  lemma {:induction false} SharesFateIff(fs: seq<Finding>, surfaces: seq<SurfaceIdentity>,
                                         within: (string, string) -> bool,
                                         rules: seq<Rule>, order: seq<string>, b: Built)
    requires Individual(fs)
    requires VisitsEach(order, SurfaceKeys(fs)) && b in BuiltInOrder(rules, fs, order)
    ensures var c := Enriched(b.compound, surfaces, within);
      (IsSuppressed(c, InOrder(fs, {}).codes) <==> AllInputsSuppressed(b))
      <==> if !IsRoot(c.surfaceKind) then SomeInputCounts(b)
           else if c.code in PolicyCodes() then NamedLikeInputs(b, c)
           else
             || b.inputs == []
             || (exists g :: g in b.inputs && !ExcusedSomewhere(fs, g.code))
             || (forall g :: g in b.inputs ==> IsRoot(g.surfaceKind))
  {
    EachIsBuilt(rules, fs, order, b);
    var key :| BuiltOn(rules, fs, key, b);
    CompoundSuppressedIff(fs, surfaces, within, rules, order, b);
    InputsAreMembers(rules, fs, key, b);
    InputsSuppressedIffExcused(rules, fs, key, b);
    NamedCodesApart(Enriched(b.compound, surfaces, within).code);
    forall g | g in b.inputs
      ensures Excused(g) ==> ExcusedSomewhere(fs, g.code)
      ensures ExcusedSomewhere(fs, g.code) ==> (Excused(g) <==> IsRoot(g.surfaceKind))
    {
      if ExcusedSomewhere(fs, g.code) {
        ExcusedIffRoot(fs, g);
      }
    }
  }

  predicate KnownKind(kind: SurfaceKind) {
    IsModule(kind) || IsRoot(kind)
  }

  /**
    The prepared findings are individual ones of scanned surfaces; findings that share
    a surface key, and surfaces that share an ID, agree on being a module or not.
  */
  ghost predicate Consistent(fs: seq<Finding>, surfaces: seq<SurfaceIdentity>) {
    && Individual(fs) && (forall f :: f in fs ==> KnownKind(f.surfaceKind))
    && (forall f :: f in fs ==> f.surfaceID != "" && exists s :: s in surfaces && s.id == f.surfaceID)
    && (forall f, s :: f in fs && s in surfaces && s.id == f.surfaceID ==>
          KnownKind(s.kind) && IsModule(s.kind) == IsModule(f.surfaceKind))
    && (forall f, g :: f in fs && g in fs && SurfaceKeyOf(f) == SurfaceKeyOf(g) ==>
          IsModule(f.surfaceKind) == IsModule(g.surfaceKind))
  }

  /** A compound ends up as a module or root finding just like the findings of its surface. */
  lemma CompoundGetsItsSurfacesKind(fs: seq<Finding>, surfaces: seq<SurfaceIdentity>, within: (string, string) -> bool,
                                    rules: seq<Rule>, key: string, b: Built, g: Finding)
    requires Consistent(fs, surfaces) && BuiltOn(rules, fs, key, b)
    requires g in Group(fs, key)
    ensures var kind := Enriched(b.compound, surfaces, within).surfaceKind;
      KnownKind(kind) && IsModule(kind) == IsModule(g.surfaceKind)
  {
    GroupExact(fs, key);
    var first := Group(fs, key)[0];
    assert first in Group(fs, key);
    assert b.compound.surfaceID == first.surfaceID;
    EnrichedKind(b.compound, surfaces, within);
  }

  lemma CompoundKindIsInputsKind(fs: seq<Finding>, surfaces: seq<SurfaceIdentity>, within: (string, string) -> bool,
                                 rules: seq<Rule>, key: string, b: Built)
    requires Consistent(fs, surfaces) && BuiltOn(rules, fs, key, b)
    ensures var kind := Enriched(b.compound, surfaces, within).surfaceKind;
      forall g :: g in b.inputs ==> IsRoot(kind) == IsRoot(g.surfaceKind)
  {
    InputsAreMembers(rules, fs, key, b);
    forall g | g in b.inputs
      ensures IsRoot(Enriched(b.compound, surfaces, within).surfaceKind) == IsRoot(g.surfaceKind)
    {
      CompoundGetsItsSurfacesKind(fs, surfaces, within, rules, key, b, g);
    }
  }

  /**
    In a consistent report a compound shares the fate of its inputs (it is suppressed if
    and only if there are some and all of them are) unless it is a root finding whose
    code the policy decides by name and otherwise than its inputs.
  */
  lemma {:induction false} CompoundSuppressedIffInputsAre(fs: seq<Finding>, surfaces: seq<SurfaceIdentity>,
                                                          within: (string, string) -> bool,
                                                          rules: seq<Rule>, order: seq<string>, b: Built)
    requires Consistent(fs, surfaces)
    requires VisitsEach(order, SurfaceKeys(fs)) && b in BuiltInOrder(rules, fs, order)
    ensures var c := Enriched(b.compound, surfaces, within);
      (IsSuppressed(c, InOrder(fs, {}).codes) <==> AllInputsSuppressed(b))
      <==> IsRoot(c.surfaceKind) ==> NamedLikeInputs(b, c)
  {
    EachIsBuilt(rules, fs, order, b);
    var key :| BuiltOn(rules, fs, key, b);
    SharesFateIff(fs, surfaces, within, rules, order, b);
    CompoundKindIsInputsKind(fs, surfaces, within, rules, key, b);
    if b.inputs != [] {
      assert b.inputs[0] in b.inputs;
    }
  }

  // ---------- Statements about whole reports ----------

  lemma PreparedIsMap(built: seq<Built>, surfaces: seq<SurfaceIdentity>, within: (string, string) -> bool, i: nat)
    requires i < |built| && built[i].compound.code != ""
    ensures Prepared(Compounds(built), surfaces, within)[i] == Enriched(built[i].compound, surfaces, within)
  {
    PreparedCompound(built[i], surfaces, within);
  }

  /** No finding uses a compound's code, be it its own code or the fallback. */
  ghost predicate NoCompoundCode(fs: seq<Finding>, rules: seq<Rule>) {
    forall f :: f in fs ==> CodeOrDefault(f) !in CompoundCodes(rules)
  }

  /** The prepared compound `i`: its own code is a compound's, the codes it was built from are not. */
  lemma PreparedCompoundCodes(fs: seq<Finding>, surfaces: seq<SurfaceIdentity>, within: (string, string) -> bool,
                              rules: seq<Rule>, order: seq<string>, i: nat)
    requires NoCompoundCode(fs, rules) && VisitsEach(order, SurfaceKeys(fs)) && i < |BuiltInOrder(rules, fs, order)|
    ensures var c := Prepared(Compounds(BuiltInOrder(rules, fs, order)), surfaces, within)[i];
      c.code in CompoundCodes(rules) && forall x :: x in c.escalatedFromCodes ==> x !in CompoundCodes(rules)
  {
    var built := BuiltInOrder(rules, fs, order);
    var b := built[i];
    assert b in built;
    EachIsBuilt(rules, fs, order, b);
    var key :| BuiltOn(rules, fs, key, b);
    InputsAreMembers(rules, fs, key, b);
    DistinctExact(Codes(b.inputs));
    PreparedIsMap(built, surfaces, within, i);
    PreparedCompound(b, surfaces, within);
    forall x | x in Codes(b.inputs)
      ensures x !in CompoundCodes(rules)
    {
      var k :| 0 <= k < |b.inputs| && Codes(b.inputs)[k] == x;
      assert b.inputs[k] in b.inputs;
    }
  }

  /** The prepared compounds are not built from one another. */
  lemma CompoundsAreIndependent(fs: seq<Finding>, surfaces: seq<SurfaceIdentity>, within: (string, string) -> bool,
                                rules: seq<Rule>, order: seq<string>)
    requires NoCompoundCode(fs, rules) && VisitsEach(order, SurfaceKeys(fs))
    ensures Independent(Prepared(Compounds(BuiltInOrder(rules, fs, order)), surfaces, within))
  {
    var cs := Prepared(Compounds(BuiltInOrder(rules, fs, order)), surfaces, within);
    forall i | 0 <= i < |cs|
      ensures cs[i].code in CompoundCodes(rules) && forall x :: x in cs[i].escalatedFromCodes ==> x !in CompoundCodes(rules)
    {
      PreparedCompoundCodes(fs, surfaces, within, rules, order, i);
    }
  }

  /** Compounds are settled when no finding uses a compound's code, as with the default rules. */
  lemma {:induction false} CompoundsAreSettled(fs: seq<Finding>, surfaces: seq<SurfaceIdentity>,
                                               within: (string, string) -> bool,
                                               rules: seq<Rule>, order: seq<string>, codes: set<string>)
    requires NoCompoundCode(fs, rules) && VisitsEach(order, SurfaceKeys(fs))
    ensures Settled(Prepared(Compounds(BuiltInOrder(rules, fs, order)), surfaces, within), codes, Policy())
  {
    CompoundsAreIndependent(fs, surfaces, within, rules, order);
    IndependentIsSettled(Prepared(Compounds(BuiltInOrder(rules, fs, order)), surfaces, within), codes);
  }

  lemma ListedAsSuppressed(fs: seq<Finding>, codes: set<string>, f: Finding)
    requires Settled(fs, codes, Policy()) && f in fs
    ensures f in Plain(InOrder(fs, codes).suppressed) <==> IsSuppressed(f, codes)
  {
    Triage.GrowthIsHarmless(fs, codes);
  }

  /** The list of suppressed compounds holds exactly those that are suppressed once all findings are triaged. */
  lemma {:induction false} CompoundListedIff(fs: seq<Finding>, surfaces: seq<SurfaceIdentity>,
                                             within: (string, string) -> bool,
                                             rules: seq<Rule>, order: seq<string>, i: nat, codes: set<string>)
    requires VisitsEach(order, SurfaceKeys(fs)) && i < |BuiltInOrder(rules, fs, order)|
    requires Settled(Prepared(Compounds(BuiltInOrder(rules, fs, order)), surfaces, within), codes, Policy())
    ensures var b := BuiltInOrder(rules, fs, order)[i];
      var cs := Prepared(Compounds(BuiltInOrder(rules, fs, order)), surfaces, within);
      && cs[i] == Enriched(b.compound, surfaces, within)
      && (cs[i] in Plain(InOrder(cs, codes).suppressed) <==> IsSuppressed(cs[i], codes))
  {
    var built := BuiltInOrder(rules, fs, order);
    var cs := Prepared(Compounds(built), surfaces, within);
    assert built[i] in built;
    EachIsBuilt(rules, fs, order, built[i]);
    PreparedIsMap(built, surfaces, within, i);
    ListedAsSuppressed(cs, codes, cs[i]);
  }

  lemma {:induction false} SuppressedListHas(fs: seq<Finding>, code: string)
    requires Individual(fs)
    ensures ExcusedSomewhere(fs, code) <==> exists f :: f in Plain(InOrder(fs, {}).suppressed) && f.code == code
  {
    IndividualsAreIndependent(fs);
    IndependentIsSettled(fs, {});
    Triage.GrowthIsHarmless(fs, {});
    forall f | f in fs
      ensures f in Plain(InOrder(fs, {}).suppressed) <==> Excused(f)
    {
      IndividualSuppressedIffExcused(f, {});
    }
  }

  /** The list holds, for each input and there is one, some finding with its code. */
  ghost predicate ListsCodesOf(suppressed: seq<TriagedFinding>, b: Built) {
    b.inputs != [] && forall g :: g in b.inputs ==> exists f :: f in Plain(suppressed) && f.code == g.code
  }

  /**
    As long as the order of the compounds does not matter, the triaged report lists a
    compound as suppressed exactly when it counts as a root finding, is not confirmed by
    name, and is excused by name or the report lists some finding with the code of each
    input as suppressed.
  */
  lemma {:induction false} ReportSuppressesIff(fs: seq<Finding>, surfaces: seq<SurfaceIdentity>,
                                               within: (string, string) -> bool,
                                               rules: seq<Rule>, order: seq<string>, i: nat)
    requires Individual(fs) && VisitsEach(order, SurfaceKeys(fs)) && i < |BuiltInOrder(rules, fs, order)|
    requires Settled(Prepared(Compounds(BuiltInOrder(rules, fs, order)), surfaces, within), InOrder(fs, {}).codes, Policy())
    ensures var b := BuiltInOrder(rules, fs, order)[i];
      var cs := Prepared(Compounds(BuiltInOrder(rules, fs, order)), surfaces, within);
      var individual := InOrder(fs, {});
      cs[i] in Plain(InOrder(cs, individual.codes).suppressed)
      <==> IsRoot(cs[i].surfaceKind) && cs[i].code !in ConfirmedCodes()
           && (cs[i].code in ExcusedCodes() || ListsCodesOf(individual.suppressed, b))
  {
    var b := BuiltInOrder(rules, fs, order)[i];
    assert b in BuiltInOrder(rules, fs, order);
    CompoundListedIff(fs, surfaces, within, rules, order, i, InOrder(fs, {}).codes);
    CompoundSuppressedIff(fs, surfaces, within, rules, order, b);
    forall g | g in b.inputs
      ensures ExcusedSomewhere(fs, g.code) <==> exists f :: f in Plain(InOrder(fs, {}).suppressed) && f.code == g.code
    {
      SuppressedListHas(fs, g.code);
    }
  }

  lemma {:induction false} AllInputsListed(fs: seq<Finding>, rules: seq<Rule>, order: seq<string>, b: Built)
    requires Individual(fs) && VisitsEach(order, SurfaceKeys(fs)) && b in BuiltInOrder(rules, fs, order)
    ensures AllInputsSuppressed(b)
       <==> b.inputs != [] && forall g :: g in b.inputs ==> g in Plain(InOrder(fs, {}).suppressed)
  {
    EachIsBuilt(rules, fs, order, b);
    var key :| BuiltOn(rules, fs, key, b);
    InputsAreMembers(rules, fs, key, b);
    IndividualsAreIndependent(fs);
    IndependentIsSettled(fs, {});
    forall g | g in b.inputs
      ensures g in Plain(InOrder(fs, {}).suppressed) <==> IsSuppressed(g, {})
    {
      ListedAsSuppressed(fs, {}, g);
    }
  }

  /**
    The triaged report of consistent findings lists a compound as suppressed exactly
    when it lists every finding the compound was built from as suppressed (and there is
    one), unless the policy decides a root compound's code by name and otherwise.
  */
  lemma {:induction false} ReportSuppressesOnlySuppressed(fs: seq<Finding>, surfaces: seq<SurfaceIdentity>,
                                                          within: (string, string) -> bool,
                                                          rules: seq<Rule>, order: seq<string>, i: nat)
    requires Consistent(fs, surfaces) && VisitsEach(order, SurfaceKeys(fs)) && i < |BuiltInOrder(rules, fs, order)|
    requires Settled(Prepared(Compounds(BuiltInOrder(rules, fs, order)), surfaces, within), InOrder(fs, {}).codes, Policy())
    ensures var b := BuiltInOrder(rules, fs, order)[i];
      var cs := Prepared(Compounds(BuiltInOrder(rules, fs, order)), surfaces, within);
      var individual := InOrder(fs, {});
      (cs[i] in Plain(InOrder(cs, individual.codes).suppressed)
       <==> b.inputs != [] && forall g :: g in b.inputs ==> g in Plain(individual.suppressed))
      <==> IsRoot(cs[i].surfaceKind) ==> NamedLikeInputs(b, cs[i])
  {
    var b := BuiltInOrder(rules, fs, order)[i];
    assert b in BuiltInOrder(rules, fs, order);
    CompoundListedIff(fs, surfaces, within, rules, order, i, InOrder(fs, {}).codes);
    CompoundSuppressedIffInputsAre(fs, surfaces, within, rules, order, b);
    AllInputsListed(fs, rules, order, b);
  }

  /** Nothing on a module surface is ever suppressed, in any list and with any codes seen before. */
  lemma {:induction false} ModuleNeverSuppressed(fs: seq<Finding>, codes: set<string>, t: TriagedFinding)
    requires t in InOrder(fs, codes).suppressed
    ensures !IsModule(t.finding.surfaceKind) && t.finding in fs
  {
    var front := fs[..|fs| - 1];
    if t in InOrder(front, codes).suppressed {
      ModuleNeverSuppressed(front, codes, t);
    }
  }

  /** The prepared compounds are the same in every order of the surfaces. */
  lemma {:induction false} PreparedInAnyOrder(fs: seq<Finding>, surfaces: seq<SurfaceIdentity>,
                                              within: (string, string) -> bool,
                                              rules: seq<Rule>, o1: seq<string>, o2: seq<string>)
    requires VisitsEach(o1, SurfaceKeys(fs)) && VisitsEach(o2, SurfaceKeys(fs))
    ensures multiset(Prepared(Compounds(BuiltInOrder(rules, fs, o1)), surfaces, within))
         == multiset(Prepared(Compounds(BuiltInOrder(rules, fs, o2)), surfaces, within))
  {
    var c1, c2 := Compounds(BuiltInOrder(rules, fs, o1)), Compounds(BuiltInOrder(rules, fs, o2));
    var prepare := (f: Finding) => Enriched(f, surfaces, within).(code := CodeOrDefault(Enriched(f, surfaces, within)));
    CorrelationOrder.CorrelateIsOrderIndependent(rules, fs, o1, o2);
    MapOfSame(c1, c2, prepare);
    assert Prepared(c1, surfaces, within) == Map(c1, prepare);
    assert Prepared(c2, surfaces, within) == Map(c2, prepare);
  }

  /**
    Whatever order the surface map is iterated in, triage confirms and suppresses the
    same compounds, although the set of suppressed codes grows while it runs.
  */
  lemma {:induction false} ReportIsOrderIndependent(fs: seq<Finding>, surfaces: seq<SurfaceIdentity>,
                                                    within: (string, string) -> bool,
                                                    rules: seq<Rule>, o1: seq<string>, o2: seq<string>, codes: set<string>)
    requires VisitsEach(o1, SurfaceKeys(fs)) && VisitsEach(o2, SurfaceKeys(fs))
    requires Settled(Prepared(Compounds(BuiltInOrder(rules, fs, o1)), surfaces, within), codes, Policy())
    ensures SameTriage(InOrder(Prepared(Compounds(BuiltInOrder(rules, fs, o1)), surfaces, within), codes),
                       InOrder(Prepared(Compounds(BuiltInOrder(rules, fs, o2)), surfaces, within), codes))
  {
    PreparedInAnyOrder(fs, surfaces, within, rules, o1, o2);
    TriageIsOrderIndependent(Prepared(Compounds(BuiltInOrder(rules, fs, o1)), surfaces, within),
                             Prepared(Compounds(BuiltInOrder(rules, fs, o2)), surfaces, within), codes);
  }

  lemma GroupSnoc(fs: seq<Finding>, f: Finding, key: string)
    ensures Group(fs + [f], key) == Group(fs, key) + if SurfaceKeyOf(f) == key then [f] else []
  {
    assert (fs + [f])[..|fs|] == fs;
  }

  lemma CountTwo(f: Finding, severity: Severity)
    ensures CountSeverity([f, f], severity) == if f.severity == severity then 2 else 0
  {
    assert [f, f][..1] == [f] && [f][..0] == [];
    assert CountSeverity([f], severity) == if f.severity == severity then 1 else 0;
  }

  lemma HighPlusHigh(f: Finding)
    requires f.severity == HIGH
    ensures EscalationOf([f, f])
         == Some(Escalation(CODE_HIGH_PLUS_OTHER, CRITICAL, "High-severity finding combined with other issues"))
  {
    CountTwo(f, CRITICAL);
    CountTwo(f, HIGH);
    assert Categories([f, f]) == {f.category};
  }

  lemma {:induction false} GroupOfTwo(root: Finding, g: Finding, key: string)
    requires SurfaceKeyOf(root) != key == SurfaceKeyOf(g)
    ensures Group([root, g, g], key) == [g, g]
  {
    assert [root, g, g] == [] + [root] + [g] + [g];
    GroupSnoc([], root, key);
    GroupSnoc([] + [root], g, key);
    GroupSnoc([] + [root] + [g], g, key);
  }

  lemma EscalationCodesAreShort(x: string)
    requires x in CompoundCodes([])
    ensures |x| < 40
  {
  }

  lemma PolicyCodesAreLong(x: string)
    requires x in PolicyCodes()
    ensures |x| > 40
  {
  }

  lemma {:induction false} EscalationOfTwo(key: string, f: Finding) returns (b: Built)
    requires f.severity == HIGH && IsModule(f.surfaceKind)
    ensures EscalationFindings(key, key, [f, f]) == [b]
    ensures b.compound.severity == CRITICAL && b.compound.filePath == "" && b.compound.checker == CHECKER
    ensures b.compound.title == "High-severity finding combined with other issues"
    ensures b.compound.surfaceID == key && b.compound.code != ""
    ensures b.compound.code in CompoundCodes([])
    ensures b.inputs != [] && forall g :: g in b.inputs ==> g == f && !IsSuppressed(g, {})
  {
    HighPlusHigh(f);
    b := EscalationFindings(key, key, [f, f])[0];
    assert b.inputs == [f, f];
  }

  lemma EscalationCodesApart(code: string)
    requires code in CompoundCodes([])
    ensures code !in PolicyCodes()
  {
    EscalationCodesAreShort(code);
    if code in PolicyCodes() {
      PolicyCodesAreLong(code);
    }
  }

  /** Two findings of one module behind a root finding with the same excused code: their escalation is suppressed. */
  lemma {:induction false} EscalationSuppressedFromElsewhere(root: Finding, g: Finding, key: string, b: Built)
    requires Excused(root) && root.escalatedFromCodes == [] && SurfaceKeyOf(root) != key
    requires g == root.(surfaceKind := LocalModule, surfaceID := key, surfaceKey := key) && key != ""
    requires root.code != "" && b.compound.code !in PolicyCodes()
    requires EscalationFindings(key, key, [g, g]) == [b]
    ensures b in SurfaceBuilt([], [root, g, g], key)
    ensures IsSuppressed(b.compound, InOrder([root, g, g], {}).codes)
  {
    var fs := [root, g, g];
    GroupOfTwo(root, g, key);
    assert b in EscalationFindings(key, key, [g, g]);
    assert fs[0] in fs && fs[1] in fs && ExcusedSomewhere(fs, g.code);
    EscalationIsBuilt([], fs, key, b);
    BuiltCompoundSuppressedIff([], fs, key, b, b.compound);
  }

  /**
    The kind that enrichment gives a compound is needed: with no surface to match, a
    compound of module findings counts as a root finding, and codes suppressed on a
    root surface suppress it although all its own findings are confirmed.
  */
  lemma {:induction false} UnenrichedModuleCompoundSuppressed(key: string) returns (fs: seq<Finding>, b: Built)
    requires key != ""
    ensures b in SurfaceBuilt([], fs, key)
    ensures b.inputs != [] && forall g :: g in b.inputs ==> g in fs && IsModule(g.surfaceKind) && !IsSuppressed(g, {})
    ensures IsSuppressed(b.compound, InOrder(fs, {}).codes)
  {
    var root := Finding(CODE_NETWORK_DNS_EXFILTRATION, HIGH, CATEGORY_EXFILTRATION, "", "", RootInvowkfile,
                        "network", "", "", [], []);
    var g := root.(surfaceKind := LocalModule, surfaceID := key, surfaceKey := key);
    fs := [root, g, g];
    b := EscalationOfTwo(key, g);
    EscalationCodesApart(b.compound.code);
    EscalationSuppressedFromElsewhere(root, g, key, b);
    assert fs[1] in fs;
  }

  lemma RuleCodesAreShort(r: Rule)
    requires r.code in {CODE_CREDENTIAL_EXFILTRATION, CODE_PATH_SYMLINK_ESCAPE, CODE_OBFUSCATED_EXFILTRATION,
                        CODE_TRUST_CHAIN_WEAKNESS, CODE_INTERPRETER_TRAVERSAL}
    ensures |RuleCode(r)| < 40
  {
  }

  lemma DefaultCompoundCodes(x: string)
    requires x in CompoundCodes(DefaultRules())
    ensures |x| < 40
  {
    hide DefaultRules;
    if r :| r in DefaultRules() && RuleCode(r) == x {
      DefaultRulesShape(r);
      RuleCodesAreShort(r);
    }
  }

  /** The default rules keep compound codes apart from the codes the policy names. */
  lemma DefaultRulesCodesApart()
    ensures CompoundCodes(DefaultRules()) !! PolicyCodes()
  {
    hide DefaultRules;
    var a, b := CompoundCodes(DefaultRules()), PolicyCodes();
    forall x | x in a && x in b
      ensures false
    {
      DefaultCompoundCodes(x);
      PolicyCodesAreLong(x);
    }
  }
}
