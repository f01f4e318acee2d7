/**
  Correlation rules: two-sided patterns over the findings of one surface, matched
  through presence maps, and the provenance recorded in the compounds they yield.
*/
module CorrelationRules {
  import opened Findings
  import opened Selection
  import Slug

  const CHECKER := "correlator"

  /** One side of a rule: a checker, optionally restricted to a category and to codes. */
  datatype Side = Side(checker: string, category: string, codes: seq<string>)

  datatype Rule = Rule(
    name: string, code: string, left: Side, right: Side,
    severity: Severity, category: string, title: string)

  datatype RulesResult = RulesOk | SameCheckerWithoutCategories(name: string)

  predicate Degenerate(r: Rule) {
    r.left.checker == r.right.checker && (r.left.category == "" || r.right.category == "")
  }

  /** `NewCorrelator`: rejects same-checker rules without both categories. */
  method ValidateRules(rules: seq<Rule>) returns (result: RulesResult)
    ensures result.RulesOk? <==> forall r :: r in rules && r.left.checker == r.right.checker ==>
      r.left.category != "" && r.right.category != ""
    ensures result.SameCheckerWithoutCategories? ==>
      exists i :: 0 <= i < |rules| && rules[i].name == result.name && Degenerate(rules[i])
        && forall j :: 0 <= j < i ==> !Degenerate(rules[j])
  {
    for i := 0 to |rules|
      invariant forall j :: 0 <= j < i ==> !Degenerate(rules[j])
    {
      if rules[i].left.checker == rules[i].right.checker && (rules[i].left.category == "" || rules[i].right.category == "") {
        assert rules[i] in rules && Degenerate(rules[i]);
        return SameCheckerWithoutCategories(rules[i].name);
      }
    }
    result := RulesOk;
  }

  // ---------- Provenance ----------

  /** The distinct non-empty strings of `s` in order of first appearance. */
  function Distinct(s: seq<string>): seq<string> {
    if s == [] then []
    else
      var d, x := Distinct(s[..|s| - 1]), s[|s| - 1];
      if x == "" || x in d then d else d + [x]
  }

  lemma {:induction false} DistinctExact(s: seq<string>)
    ensures forall x :: x in Distinct(s) <==> x in s && x != ""
    ensures forall i, j :: 0 <= i < j < |Distinct(s)| ==> Distinct(s)[i] != Distinct(s)[j]
  {
    if s == [] {
    } else {
      assert s == s[..|s| - 1] + [s[|s| - 1]];
      DistinctExact(s[..|s| - 1]);
    }
  }

  /** Earlier in the result means first seen earlier: every first appearance precedes all uses of later ones. */
  lemma {:induction false} DistinctInFirstAppearanceOrder(s: seq<string>, i: nat, j: nat, q: nat)
    requires i < j < |Distinct(s)| && q < |s| && s[q] == Distinct(s)[j]
    ensures exists p :: 0 <= p < q && s[p] == Distinct(s)[i]
  {
    var front := s[..|s| - 1];
    var d := Distinct(front);
    DistinctExact(front);
    if j < |d| && q < |front| {
      DistinctInFirstAppearanceOrder(front, i, j, q);
    } else {
      assert d[i] in front;
      if j < |d| {
        assert d[j] in front;
        var q' :| 0 <= q' < |front| && front[q'] == d[j];
        DistinctInFirstAppearanceOrder(front, i, j, q');
      } else {
        assert q == |front|;
        var p :| 0 <= p < |front| && front[p] == d[i];
      }
    }
  }

  function Titles(fs: seq<Finding>): seq<string> {
    seq(|fs|, i requires 0 <= i < |fs| => fs[i].title)
  }

  function Codes(fs: seq<Finding>): seq<string> {
    seq(|fs|, i requires 0 <= i < |fs| => CodeOrDefault(fs[i]))
  }

  function Attached(target: Finding, inputs: seq<Finding>): Finding {
    target.(escalatedFrom := Distinct(Titles(inputs)), escalatedFromCodes := Distinct(Codes(inputs)))
  }

  /** `attachEscalationInputs`: the target gets the distinct titles and codes of its inputs. */
  method AttachEscalationInputs(target: Finding, inputs: seq<Finding>) returns (result: Finding)
    ensures result == Attached(target, inputs)
  {
    var from, fromCodes: seq<string>, seenTitles, seenCodes := [], [], {}, {};
    for i := 0 to |inputs|
      invariant from == Distinct(Titles(inputs[..i])) && seenTitles == set x | x in from
      invariant fromCodes == Distinct(Codes(inputs[..i])) && seenCodes == set x | x in fromCodes
    {
      assert Titles(inputs[..i + 1])[..i] == Titles(inputs[..i]);
      assert Codes(inputs[..i + 1])[..i] == Codes(inputs[..i]);
      var title := inputs[i].title;
      if title != "" && title !in seenTitles {
        from, seenTitles := from + [title], seenTitles + {title};
      }
      var code := CodeOrDefault(inputs[i]);
      if code != "" && code !in seenCodes {
        fromCodes, seenCodes := fromCodes + [code], seenCodes + {code};
      }
    }
    assert inputs[..|inputs|] == inputs;
    result := target.(escalatedFrom := from, escalatedFromCodes := fromCodes);
  }

  // ---------- Rules ----------

  predicate MatchesSide(f: Finding, side: Side) {
    && f.checker == side.checker
    && (side.category != "" ==> f.category == side.category)
    && (side.codes != [] ==> CodeOrDefault(f) in side.codes)
  }

  function RuleCode(r: Rule): string {
    if r.code != "" then r.code else "correlator-" + r.name
  }

  predicate HasChecker(fs: seq<Finding>, checker: string) {
    exists f :: f in fs && f.checker == checker
  }

  predicate HasCategory(fs: seq<Finding>, checker: string, category: string) {
    exists f :: f in fs && f.checker == checker && f.category == category
  }

  predicate HasAnyCode(fs: seq<Finding>, checker: string, codes: seq<string>) {
    exists f :: f in fs && f.checker == checker && CodeOrDefault(f) in codes
  }

  predicate HasCode(fs: seq<Finding>, checker: string, code: string) {
    exists f :: f in fs && f.checker == checker && CodeOrDefault(f) == code
  }

  /**
    When the code fires a rule: presence of checkers, of categories and of codes are
    tested separately, each for both sides, and whether categories (codes) are tested
    at all is decided by the left side alone.
  */
  predicate Fires(r: Rule, fs: seq<Finding>) {
    && HasChecker(fs, r.left.checker) && HasChecker(fs, r.right.checker)
    && (r.left.category != "" ==>
          HasCategory(fs, r.left.checker, r.left.category) && HasCategory(fs, r.right.checker, r.right.category))
    && (r.left.codes != [] ==>
          HasAnyCode(fs, r.left.checker, r.left.codes) && HasAnyCode(fs, r.right.checker, r.right.codes))
  }

  /** The findings that match either side, in order. */
  function Matching(r: Rule, fs: seq<Finding>): seq<Finding> {
    if fs == [] then []
    else
      var f := fs[|fs| - 1];
      Matching(r, fs[..|fs| - 1]) + if MatchesSide(f, r.left) || MatchesSide(f, r.right) then [f] else []
  }

  /** A compound finding together with the findings it was built from. */
  datatype Built = Built(compound: Finding, inputs: seq<Finding>)

  function Compound(code: string, severity: Severity, category: string, surfaceID: string, surfaceKey: string,
                    title: string, inputs: seq<Finding>): Built
  {
    Built(Attached(Finding(code, severity, category, surfaceID, surfaceKey, Unset, CHECKER, "", title, [], []), inputs), inputs)
  }

  function FromRule(r: Rule, surfaceID: string, surfaceKey: string, fs: seq<Finding>): Built {
    Compound(RuleCode(r), r.severity, r.category, surfaceID, surfaceKey, r.title, Matching(r, fs))
  }

  /** One compound per rule that fires, in rule order. */
  function RuleFindings(rules: seq<Rule>, surfaceID: string, surfaceKey: string, fs: seq<Finding>): seq<Built> {
    if rules == [] then []
    else
      var r := rules[|rules| - 1];
      RuleFindings(rules[..|rules| - 1], surfaceID, surfaceKey, fs)
      + if Fires(r, fs) then [FromRule(r, surfaceID, surfaceKey, fs)] else []
  }

  function Compounds(built: seq<Built>): (r: seq<Finding>)
    ensures |r| == |built|
  {
    seq(|built|, i requires 0 <= i < |built| => built[i].compound)
  }

  /** Presence maps of a surface: checkers, and categories and codes by checker. */
  datatype Presence = Presence(checkers: set<string>, categories: map<string, set<string>>, codes: map<string, set<string>>)

  function At(m: map<string, set<string>>, key: string): set<string> {
    if key in m then m[key] else {}
  }

  ghost predicate Records(p: Presence, fs: seq<Finding>) {
    && (forall c :: c in p.checkers <==> HasChecker(fs, c))
    && (forall c, x :: x in At(p.categories, c) <==> HasCategory(fs, c, x))
    && (forall c, x :: x in At(p.codes, c) <==> HasCode(fs, c, x))
  }

  lemma OneMoreFinding(fs: seq<Finding>, f: Finding)
    ensures forall c :: HasChecker(fs + [f], c) <==> HasChecker(fs, c) || f.checker == c
    ensures forall c, x :: HasCategory(fs + [f], c, x) <==> HasCategory(fs, c, x) || (f.checker == c && f.category == x)
    ensures forall c, x :: HasCode(fs + [f], c, x) <==> HasCode(fs, c, x) || (f.checker == c && CodeOrDefault(f) == x)
  {
    assert f in fs + [f];
    assert forall g :: g in fs ==> g in fs + [f];
  }

  method BuildPresence(fs: seq<Finding>) returns (p: Presence)
    ensures Records(p, fs)
  {
    p := Presence({}, map[], map[]);
    for i := 0 to |fs|
      invariant Records(p, fs[..i])
    {
      var f := fs[i];
      var name, code := f.checker, CodeOrDefault(f);
      OneMoreFinding(fs[..i], f);
      assert fs[..i + 1] == fs[..i] + [f];
      p := Presence(p.checkers + {name},
                    p.categories[name := At(p.categories, name) + {f.category}],
                    p.codes[name := At(p.codes, name) + {code}]);
    }
    assert fs[..|fs|] == fs;
  }

  /** `hasAnyFindingCode` on the codes recorded for one checker. */
  method SomeCodeRecorded(ghost fs: seq<Finding>, p: Presence, checker: string, required: seq<string>) returns (found: bool)
    requires Records(p, fs)
    ensures found <==> HasAnyCode(fs, checker, required)
  {
    var available := At(p.codes, checker);
    for i := 0 to |required|
      invariant forall k :: 0 <= k < i ==> !HasCode(fs, checker, required[k])
    {
      if required[i] in available {
        assert HasCode(fs, checker, required[i]);
        return true;
      }
    }
    if HasAnyCode(fs, checker, required) {
      var f :| f in fs && f.checker == checker && CodeOrDefault(f) in required;
      assert HasCode(fs, checker, CodeOrDefault(f));
    }
    found := false;
  }

  method RuleFires(r: Rule, p: Presence, ghost fs: seq<Finding>) returns (fires: bool)
    requires Records(p, fs)
    ensures fires <==> Fires(r, fs)
  {
    if r.left.checker !in p.checkers || r.right.checker !in p.checkers {
      return false;
    }
    if r.left.category != "" {
      if r.left.category !in At(p.categories, r.left.checker) || r.right.category !in At(p.categories, r.right.checker) {
        return false;
      }
    }
    if |r.left.codes| > 0 {
      var left := SomeCodeRecorded(fs, p, r.left.checker, r.left.codes);
      if !left {
        return false;
      }
      var right := SomeCodeRecorded(fs, p, r.right.checker, r.right.codes);
      if !right {
        return false;
      }
    }
    fires := true;
  }

  method CollectMatching(r: Rule, fs: seq<Finding>) returns (matching: seq<Finding>)
    ensures matching == Matching(r, fs)
  {
    matching := [];
    for i := 0 to |fs|
      invariant matching == Matching(r, fs[..i])
    {
      assert fs[..i + 1][..i] == fs[..i];
      if MatchesSide(fs[i], r.left) || MatchesSide(fs[i], r.right) {
        matching := matching + [fs[i]];
      }
    }
    assert fs[..|fs|] == fs;
  }

  method ApplyRules(rules: seq<Rule>, surfaceID: string, surfaceKey: string, fs: seq<Finding>)
    returns (result: seq<Finding>)
    ensures result == Compounds(RuleFindings(rules, surfaceID, surfaceKey, fs))
  {
    result := [];
    var presence := BuildPresence(fs);
    for i := 0 to |rules|
      invariant result == Compounds(RuleFindings(rules[..i], surfaceID, surfaceKey, fs))
    {
      var r := rules[i];
      assert rules[..i + 1][..i] == rules[..i];
      var fires := RuleFires(r, presence, fs);
      if !fires {
        continue;
      }
      var matching := CollectMatching(r, fs);
      var finding := Finding(RuleCode(r), r.severity, r.category, surfaceID, surfaceKey, Unset, CHECKER, "", r.title, [], []);
      finding := AttachEscalationInputs(finding, matching);
      result := result + [finding];
    }
    assert rules[..|rules|] == rules;
  }

  // ---------- What a fired rule yields ----------

  /** The inputs of a rule's compound: the findings that match a side, each as often and in order. */
  lemma {:induction false} MatchingExact(r: Rule, fs: seq<Finding>)
    ensures IsSelection(Matching(r, fs), fs, (f: Finding) => MatchesSide(f, r.left) || MatchesSide(f, r.right))
  {
    var keep := (f: Finding) => MatchesSide(f, r.left) || MatchesSide(f, r.right);
    if fs == [] {
      NothingToSelect(keep);
    } else {
      var front, f := fs[..|fs| - 1], fs[|fs| - 1];
      assert fs == front + [f];
      MatchingExact(r, front);
      SelectNext(Matching(r, front), front, f, keep);
    }
  }

  /** What the compound records: the distinct titles and codes of its inputs, in order of first appearance. */
  ghost predicate RecordsInputs(c: Finding, inputs: seq<Finding>) {
    && (exists titles: seq<string> ::
          && |titles| == |inputs| && (forall i :: 0 <= i < |inputs| ==> titles[i] == inputs[i].title)
          && c.escalatedFrom == Distinct(titles))
    && (exists codes: seq<string> ::
          && |codes| == |inputs| && (forall i :: 0 <= i < |inputs| ==> codes[i] == CodeOrDefault(inputs[i]))
          && c.escalatedFromCodes == Distinct(codes))
  }

  lemma AttachedRecords(target: Finding, inputs: seq<Finding>)
    ensures RecordsInputs(Attached(target, inputs), inputs)
  {
    assert |Titles(inputs)| == |inputs| && |Codes(inputs)| == |inputs|;
  }

  /** The compound of a fired rule on a surface, and what it was built from. */
  ghost predicate YieldedBy(b: Built, r: Rule, surfaceID: string, surfaceKey: string, fs: seq<Finding>) {
    && b.compound.code == (if r.code != "" then r.code else "correlator-" + r.name)
    && b.compound.severity == r.severity && b.compound.category == r.category && b.compound.title == r.title
    && b.compound.surfaceID == surfaceID && b.compound.surfaceKey == surfaceKey && b.compound.surfaceKind == Unset
    && b.compound.checker == "correlator" && b.compound.filePath == ""
    && RecordsInputs(b.compound, b.inputs)
    && IsSelection(b.inputs, fs, (f: Finding) => MatchesSide(f, r.left) || MatchesSide(f, r.right))
  }

  lemma FromRuleExact(r: Rule, surfaceID: string, surfaceKey: string, fs: seq<Finding>)
    ensures YieldedBy(FromRule(r, surfaceID, surfaceKey, fs), r, surfaceID, surfaceKey, fs)
  {
    MatchingExact(r, fs);
    AttachedRecords(Finding(RuleCode(r), r.severity, r.category, surfaceID, surfaceKey, Unset, CHECKER, "", r.title, [], []),
                    Matching(r, fs));
  }

  /** One compound for each rule that fires, in the order of the rules. */
  lemma {:induction false} RuleFindingsExact(rules: seq<Rule>, surfaceID: string, surfaceKey: string, fs: seq<Finding>)
    ensures IsImage(RuleFindings(rules, surfaceID, surfaceKey, fs), rules,
                    (r: Rule) => Fires(r, fs), (r: Rule) => FromRule(r, surfaceID, surfaceKey, fs))
  {
    var fires := (r: Rule) => Fires(r, fs);
    var from := (r: Rule) => FromRule(r, surfaceID, surfaceKey, fs);
    if rules == [] {
      EmptyImage(fires, from);
    } else {
      var front, r := rules[..|rules| - 1], rules[|rules| - 1];
      assert rules == front + [r];
      RuleFindingsExact(front, surfaceID, surfaceKey, fs);
      ImageNext(RuleFindings(front, surfaceID, surfaceKey, fs), front, r, fires, from);
    }
  }

  // ---------- What firing means ----------

  /** Some finding matches the left side and some finding matches the right side. */
  predicate BothSidesMatched(r: Rule, fs: seq<Finding>) {
    (exists f :: f in fs && MatchesSide(f, r.left)) && (exists g :: g in fs && MatchesSide(g, r.right))
  }

  /** Restricted on both sides alike, by categories or by codes but not by both. */
  predicate Paired(r: Rule) {
    && (r.left.category == "" <==> r.right.category == "")
    && (r.left.codes == [] <==> r.right.codes == [])
    && (r.left.category == "" || r.left.codes == [])
  }

  lemma PairedRuleFiresIffMatched(r: Rule, fs: seq<Finding>)
    requires Paired(r)
    ensures Fires(r, fs) <==> BothSidesMatched(r, fs)
  {
  }

  /**
    A finding of this checker and category can have this code. An empty code is replaced
    by a slug of checker, category and title, so it stays empty only if they have no words.
  */
  predicate MayHaveCode(checker: string, category: string, code: string) {
    code != "" || (Slug.Wordless(checker) && Slug.Wordless(category))
  }

  lemma CodeIsPossible(f: Finding)
    ensures MayHaveCode(f.checker, f.category, CodeOrDefault(f))
  {
    var parts := [f.checker, f.category, f.title];
    Slug.EmptySlugIff(parts);
    assert parts[0] in parts && parts[1] in parts;
  }

  function Probe(checker: string, category: string, code: string): Finding {
    Finding(code, INFO, category, "", "", Unset, checker, "", "", [], [])
  }

  lemma ProbeHasCode(checker: string, category: string, code: string)
    requires MayHaveCode(checker, category, code)
    ensures CodeOrDefault(Probe(checker, category, code)) == code
  {
    Slug.EmptySlugIff([checker, category, ""]);
  }

  /** Some listed code can be found among the findings of the checker. */
  predicate Listable(side: Side) {
    exists x :: x in side.codes && MayHaveCode(side.checker, "", x)
  }

  /** Some finding matches the side. */
  predicate Matchable(side: Side) {
    side.codes == [] || exists x :: x in side.codes && MayHaveCode(side.checker, side.category, x)
  }

  /** When the left side lists codes, both sides list some that can be found. */
  predicate CanFire(r: Rule) {
    r.left.codes == [] || (Listable(r.left) && Listable(r.right))
  }

  lemma ListableIfFound(fs: seq<Finding>, side: Side)
    requires HasAnyCode(fs, side.checker, side.codes)
    ensures Listable(side)
  {
    var f :| f in fs && f.checker == side.checker && CodeOrDefault(f) in side.codes;
    CodeIsPossible(f);
    assert MayHaveCode(side.checker, "", CodeOrDefault(f));
  }

  lemma FiresOnlyIfItCan(r: Rule, fs: seq<Finding>)
    requires Fires(r, fs)
    ensures CanFire(r)
  {
    if r.left.codes != [] {
      ListableIfFound(fs, r.left);
      ListableIfFound(fs, r.right);
    }
  }

  lemma MatchedOnlyIfMatchable(f: Finding, side: Side)
    requires MatchesSide(f, side)
    ensures Matchable(side)
  {
    CodeIsPossible(f);
    if side.codes != [] {
      assert MayHaveCode(side.checker, side.category, CodeOrDefault(f));
    }
  }

  lemma ProbeMatches(checker: string, category: string, code: string, side: Side)
    requires MayHaveCode(checker, category, code)
    ensures MatchesSide(Probe(checker, category, code), side) <==>
      && checker == side.checker
      && (side.category == "" || category == side.category)
      && (side.codes == [] || code in side.codes)
  {
    ProbeHasCode(checker, category, code);
  }

  // ---------- Findings on which presence and matching disagree ----------

  /** A wordless string longer than every string in `s`. */
  function Fresh(s: seq<string>): (x: string)
    ensures x != "" && Slug.Wordless(x) && forall y :: y in s ==> |y| < |x|
  {
    if s == [] then "-"
    else
      var x := Fresh(s[1..]);
      if |s[0]| < |x| then x else seq(|s[0]| + 1, _ => '-')
  }

  /** Strings of no meaning to the rule: the category and the code of a finding that no side asks for. */
  predicate Strange(r: Rule, category: string, code: string) {
    && category != "" && Slug.Wordless(category) && category != r.left.category && category != r.right.category
    && code != "" && code !in r.left.codes && code !in r.right.codes
  }

  lemma Strangers(r: Rule)
    ensures exists category, code :: Strange(r, category, code)
  {
    var categories, codes := [r.left.category, r.right.category], r.left.codes + r.right.codes;
    assert r.left.category in categories && r.right.category in categories;
    assert forall x :: x in r.left.codes || x in r.right.codes ==> x in codes;
    assert Strange(r, Fresh(categories), Fresh(codes));
  }

  /** The rule fires on some findings that leave a side unmatched. */
  ghost predicate CanMisfire(r: Rule) {
    exists fs :: Fires(r, fs) && !BothSidesMatched(r, fs)
  }

  /** The rule is silent on some findings that match both sides. */
  ghost predicate CanStaySilent(r: Rule) {
    exists fs :: BothSidesMatched(r, fs) && !Fires(r, fs)
  }

  /** The left side restricted twice: each presence test succeeds there, but on different findings. */
  lemma DoublyRestrictedMisfires(r: Rule, category: string, code: string, leftCode: string, rightCode: string)
    requires r.left.category != "" && leftCode in r.left.codes && rightCode in r.right.codes
    requires MayHaveCode(r.left.checker, "", leftCode) && MayHaveCode(r.right.checker, "", rightCode)
    requires code != "" && code !in r.left.codes && category != r.left.category && Slug.Wordless(category)
    ensures CanMisfire(r)
  {
    var L, R := r.left, r.right;
    var fs := [Probe(L.checker, L.category, code), Probe(R.checker, R.category, code),
               Probe(L.checker, category, leftCode), Probe(R.checker, category, rightCode)];
    assert fs[0] in fs && fs[1] in fs && fs[2] in fs && fs[3] in fs;
    assert Fires(r, fs) by {
      ProbeHasCode(L.checker, category, leftCode);
      ProbeHasCode(R.checker, category, rightCode);
    }
    assert !BothSidesMatched(r, fs) by {
      ProbeMatches(L.checker, L.category, code, L);
      ProbeMatches(R.checker, R.category, code, L);
      ProbeMatches(L.checker, category, leftCode, L);
      ProbeMatches(R.checker, category, rightCode, L);
    }
    hide Fires, BothSidesMatched;
  }

  /** The right side's restriction is not tested: the rule fires although nothing matches there. */
  lemma UntestedRightMisfires(r: Rule, leftCategory: string, leftCode: string, rightCategory: string, rightCode: string)
    requires MayHaveCode(r.left.checker, leftCategory, leftCode) && MayHaveCode(r.right.checker, rightCategory, rightCode)
    requires r.left.category != "" ==> leftCategory == r.left.category && rightCategory == r.right.category
    requires r.left.codes != [] ==> leftCode in r.left.codes && rightCode in r.right.codes
    requires !MatchesSide(Probe(r.left.checker, leftCategory, leftCode), r.right)
    requires !MatchesSide(Probe(r.right.checker, rightCategory, rightCode), r.right)
    ensures CanMisfire(r)
  {
    var fs := [Probe(r.left.checker, leftCategory, leftCode), Probe(r.right.checker, rightCategory, rightCode)];
    assert fs[0] in fs && fs[1] in fs;
    ProbeHasCode(r.left.checker, leftCategory, leftCode);
    ProbeHasCode(r.right.checker, rightCategory, rightCode);
    assert Fires(r, fs) && !BothSidesMatched(r, fs);
  }

  /** The only restriction is a category on the left; the right side must then show a finding without one. */
  predicate LeftCategoryOnly(r: Rule) {
    r.left.category != "" && r.right.category == "" && r.left.codes == [] && r.right.codes == []
  }

  /** A finding without a category is demanded on the right, where any would match: a matched rule stays silent. */
  lemma LeftCategoryIsSilent(r: Rule)
    requires LeftCategoryOnly(r)
    ensures CanStaySilent(r)
  {
    var fs := [Probe(r.left.checker, r.left.category, "x"), Probe(r.right.checker, "x", "x")];
    assert fs[0] in fs && fs[1] in fs;
    assert forall f :: f in fs ==> f.category != "";
    assert BothSidesMatched(r, fs) && !Fires(r, fs);
  }

  lemma MatchingProbe(side: Side)
    requires Matchable(side)
    ensures exists f :: MatchesSide(f, side)
  {
    var code := "x";
    if side.codes != [] {
      code :| code in side.codes && MayHaveCode(side.checker, side.category, code);
    }
    ProbeMatches(side.checker, side.category, code, side);
    assert MatchesSide(Probe(side.checker, side.category, code), side);
  }

  /** A rule that can never fire stays silent on findings that match both sides, if there are any. */
  lemma NeverFiringIsSilent(r: Rule)
    requires !CanFire(r) && Matchable(r.left) && Matchable(r.right)
    ensures CanStaySilent(r)
  {
    MatchingProbe(r.left);
    MatchingProbe(r.right);
    var f :| MatchesSide(f, r.left);
    var g :| MatchesSide(g, r.right);
    var fs := [f, g];
    assert fs[0] in fs && fs[1] in fs && BothSidesMatched(r, fs);
    if Fires(r, fs) {
      FiresOnlyIfItCan(r, fs);
    }
  }

  /** Every other rule that is not paired fires on findings that leave a side unmatched. */
  lemma FiresUnmatched(r: Rule)
    requires !Paired(r) && CanFire(r) && !LeftCategoryOnly(r)
    ensures CanMisfire(r)
  {
    var L, R := r.left, r.right;
    Strangers(r);
    var category, code :| Strange(r, category, code);
    if L.codes != [] {
      var leftCode :| leftCode in L.codes && MayHaveCode(L.checker, "", leftCode);
      var rightCode :| rightCode in R.codes && MayHaveCode(R.checker, "", rightCode);
      if L.category != "" {
        DoublyRestrictedMisfires(r, category, code, leftCode, rightCode);
      } else {
        ProbeMatches(L.checker, category, leftCode, R);
        ProbeMatches(R.checker, category, rightCode, R);
        UntestedRightMisfires(r, category, leftCode, category, rightCode);
      }
    } else {
      var leftCategory := if L.category == "" then category else L.category;
      var rightCategory := if L.category == "" then category else R.category;
      ProbeMatches(L.checker, leftCategory, code, R);
      ProbeMatches(R.checker, rightCategory, code, R);
      UntestedRightMisfires(r, leftCategory, code, rightCategory, code);
    }
  }

  lemma NeitherFiresNorMatches(r: Rule, fs: seq<Finding>)
    requires !CanFire(r) && !(Matchable(r.left) && Matchable(r.right))
    ensures !Fires(r, fs) && !BothSidesMatched(r, fs)
  {
    if Fires(r, fs) {
      FiresOnlyIfItCan(r, fs);
    }
    if BothSidesMatched(r, fs) {
      var f :| f in fs && MatchesSide(f, r.left);
      var g :| g in fs && MatchesSide(g, r.right);
      MatchedOnlyIfMatchable(f, r.left);
      MatchedOnlyIfMatchable(g, r.right);
    }
  }

  /**
    The presence test means "both sides matched" for all findings exactly when the rule
    is paired, or can neither fire nor be matched. Otherwise the presence maps forget
    which finding had which category and code.
  */
  lemma PresenceTestExactIff(r: Rule)
    ensures (forall fs :: Fires(r, fs) <==> BothSidesMatched(r, fs))
       <==> Paired(r) || (!CanFire(r) && !(Matchable(r.left) && Matchable(r.right)))
  {
    if Paired(r) {
      forall fs ensures Fires(r, fs) <==> BothSidesMatched(r, fs) {
        PairedRuleFiresIffMatched(r, fs);
      }
    } else if CanFire(r) {
      if LeftCategoryOnly(r) {
        LeftCategoryIsSilent(r);
      } else {
        FiresUnmatched(r);
      }
    } else if Matchable(r.left) && Matchable(r.right) {
      NeverFiringIsSilent(r);
    } else {
      forall fs ensures !Fires(r, fs) && !BothSidesMatched(r, fs) {
        NeitherFiresNorMatches(r, fs);
      }
    }
  }

  /** Wherever both sides are matched, some input of the compound matches each side. */
  lemma BothSidesAmongInputs(r: Rule, fs: seq<Finding>)
    requires BothSidesMatched(r, fs)
    ensures BothSidesMatched(r, Matching(r, fs))
  {
    MatchingExact(r, fs);
    SelectionMembers(Matching(r, fs), fs, (f: Finding) => MatchesSide(f, r.left) || MatchesSide(f, r.right));
    var f :| f in fs && MatchesSide(f, r.left);
    var g :| g in fs && MatchesSide(g, r.right);
    assert f in Matching(r, fs) && g in Matching(r, fs);
  }

  /** Adding findings never unfires a rule. */
  lemma FiringIsMonotone(r: Rule, fs: seq<Finding>, more: seq<Finding>)
    requires Fires(r, fs)
    requires forall f :: f in fs ==> f in more
    ensures Fires(r, more)
  {
  }

  /** No finding can match both sides. */
  predicate SidesApart(r: Rule) {
    || r.left.checker != r.right.checker
    || (r.left.category != "" && r.right.category != "" && r.left.category != r.right.category)
    || (r.left.codes != [] && r.right.codes != []
        && forall x :: x in r.left.codes && MayHaveCode(r.left.checker, "", x) ==> x !in r.right.codes)
  }

  /** Two different findings, one for each side. */
  ghost predicate RestsOnTwo(r: Rule, fs: seq<Finding>) {
    exists i, j :: 0 <= i < |fs| && 0 <= j < |fs| && i != j && MatchesSide(fs[i], r.left) && MatchesSide(fs[j], r.right)
  }

  lemma TwoMatchesRestOnTwo(r: Rule, fs: seq<Finding>, f: Finding, g: Finding)
    requires f in fs && g in fs && f != g && MatchesSide(f, r.left) && MatchesSide(g, r.right)
    ensures RestsOnTwo(r, fs)
  {
    var i :| 0 <= i < |fs| && fs[i] == f;
    var j :| 0 <= j < |fs| && fs[j] == g;
  }

  lemma ApartRuleRestsOnTwo(r: Rule, fs: seq<Finding>)
    requires Paired(r) && SidesApart(r) && Fires(r, fs)
    ensures RestsOnTwo(r, fs)
  {
    PairedRuleFiresIffMatched(r, fs);
    var f :| f in fs && MatchesSide(f, r.left);
    var g :| g in fs && MatchesSide(g, r.right);
    CodeIsPossible(f);
    TwoMatchesRestOnTwo(r, fs, f, g);
  }

  lemma LeftCategoryRuleRestsOnTwo(r: Rule, fs: seq<Finding>)
    requires LeftCategoryOnly(r) && Fires(r, fs)
    ensures RestsOnTwo(r, fs)
  {
    var f :| f in fs && f.checker == r.left.checker && f.category == r.left.category;
    var g :| g in fs && g.checker == r.right.checker && g.category == "";
    TwoMatchesRestOnTwo(r, fs, f, g);
  }

  /** A paired rule whose sides are not apart fires on a single finding. */
  lemma FiresOnOne(r: Rule)
    requires Paired(r) && !SidesApart(r)
    ensures exists fs :: Fires(r, fs) && !RestsOnTwo(r, fs)
  {
    var code := "x";
    if r.left.codes != [] {
      code :| code in r.left.codes && MayHaveCode(r.left.checker, "", code) && code in r.right.codes;
    }
    var f := Probe(r.left.checker, r.left.category, code);
    ProbeMatches(r.left.checker, r.left.category, code, r.left);
    ProbeMatches(r.left.checker, r.left.category, code, r.right);
    var fs := [f];
    assert f in fs;
    PairedRuleFiresIffMatched(r, fs);
    assert Fires(r, fs) && !RestsOnTwo(r, fs);
  }

  lemma TwoAreBothSides(r: Rule, fs: seq<Finding>)
    requires RestsOnTwo(r, fs)
    ensures BothSidesMatched(r, fs)
  {
  }

  /**
    A rule rests on two different findings whenever it fires, if and only if it is
    paired with its sides apart, or restricted by a category on the left alone, or can
    never fire. `NewCorrelator` demands none of these: it accepts, for instance, the
    same checker with the same category on both sides, which fires on a single finding.
  */
  lemma FiredRuleRestsOnTwoIff(r: Rule)
    ensures (forall fs :: Fires(r, fs) ==> RestsOnTwo(r, fs))
       <==> (Paired(r) && SidesApart(r)) || LeftCategoryOnly(r) || !CanFire(r)
  {
    if Paired(r) && SidesApart(r) {
      forall fs | Fires(r, fs) ensures RestsOnTwo(r, fs) {
        ApartRuleRestsOnTwo(r, fs);
      }
    } else if LeftCategoryOnly(r) {
      forall fs | Fires(r, fs) ensures RestsOnTwo(r, fs) {
        LeftCategoryRuleRestsOnTwo(r, fs);
      }
    } else if !CanFire(r) {
      forall fs ensures !Fires(r, fs) {
        if Fires(r, fs) {
          FiresOnlyIfItCan(r, fs);
        }
      }
    } else if Paired(r) {
      FiresOnOne(r);
    } else {
      FiresUnmatched(r);
      var fs :| Fires(r, fs) && !BothSidesMatched(r, fs);
      if RestsOnTwo(r, fs) {
        TwoAreBothSides(r, fs);
      }
    }
  }

  /** An accepted rule that rests on one finding: the same checker and category twice. */
  lemma AcceptedRuleOnOneFinding(r: Rule)
    requires r.left == r.right && r.left.category != "" && r.left.codes == []
    ensures !Degenerate(r) && exists fs :: |fs| == 1 && Fires(r, fs)
  {
    var f := Probe(r.left.checker, r.left.category, "x");
    assert f in [f];
    assert |[f]| == 1 && Fires(r, [f]);
  }

  const SCRIPT_CHECKER := "script"
  const NETWORK_CHECKER := "network"
  const ENV_CHECKER := "env"
  const SYMLINK_CHECKER := "symlink"
  const MODULE_METADATA_CHECKER := "module-metadata"
  const LOCKFILE_CHECKER := "lockfile"

  function MetadataTrustCodes(): (codes: seq<string>)
    ensures codes != []
  {
    ["module-metadata-trust-wide-dependency-fan-out",
     "module-metadata-trust-transitive-dependency-not-declared-in-root-invowkmod-cue",
     "module-metadata-trust-vendored-module-not-declared-in-requires"]
  }

  function LockfileIntegrityCodes(): (codes: seq<string>)
    ensures codes != []
  {
    ["lockfile-integrity-module-has-dependencies-but-no-lock-file",
     "lockfile-integrity-vendored-modules-present-without-lock-file",
     "lockfile-integrity-lock-file-uses-v1-0-format-without-content-hashes",
     "lockfile-integrity-vendored-modules-cannot-be-verified-v1-lock-file-has-no-content-hashes",
     "lockfile-integrity-vendored-module-has-no-lock-file-entry",
     "lockfile-integrity-module-content-hash-mismatch",
     "lockfile-integrity-required-module-has-no-lock-file-entry"]
  }

  function CredentialExfiltration(): Rule {
    Rule("credential-exfiltration", CODE_CREDENTIAL_EXFILTRATION,
         Side(ENV_CHECKER, "", []), Side(NETWORK_CHECKER, "", []),
         CRITICAL, CATEGORY_EXFILTRATION, "Potential credential exfiltration")
  }

  function PathSymlinkEscape(): Rule {
    Rule("path-symlink-escape", CODE_PATH_SYMLINK_ESCAPE,
         Side(SCRIPT_CHECKER, "", []), Side(SYMLINK_CHECKER, "", []),
         CRITICAL, CATEGORY_PATH_TRAVERSAL, "Combined path traversal and symlink escape")
  }

  function ObfuscatedExfiltration(): Rule {
    Rule("obfuscated-exfiltration", CODE_OBFUSCATED_EXFILTRATION,
         Side(SCRIPT_CHECKER, CATEGORY_OBFUSCATION, []), Side(NETWORK_CHECKER, CATEGORY_EXFILTRATION, []),
         CRITICAL, CATEGORY_EXFILTRATION, "Obfuscated network access detected")
  }

  function TrustChainWeakness(): Rule {
    Rule("trust-chain-weakness", CODE_TRUST_CHAIN_WEAKNESS,
         Side(MODULE_METADATA_CHECKER, "", MetadataTrustCodes()), Side(LOCKFILE_CHECKER, "", LockfileIntegrityCodes()),
         HIGH, CATEGORY_TRUST, "Trust chain weakness \U{2014} dependency graph with missing integrity")
  }

  function InterpreterTraversal(): Rule {
    Rule("interpreter-traversal", CODE_INTERPRETER_TRAVERSAL,
         Side(SCRIPT_CHECKER, CATEGORY_EXECUTION, []), Side(SCRIPT_CHECKER, CATEGORY_PATH_TRAVERSAL, []),
         CRITICAL, CATEGORY_EXECUTION, "Unusual interpreter with path traversal")
  }

  function DefaultRules(): seq<Rule> {
    [CredentialExfiltration(), PathSymlinkEscape(), ObfuscatedExfiltration(), TrustChainWeakness(), InterpreterTraversal()]
  }

  /** Accepted, restricted alike on both sides, and the sides exclude each other. */
  predicate WellShaped(r: Rule) {
    !Degenerate(r) && Paired(r) && SidesApart(r)
  }

  lemma CredentialExfiltrationShape()
    ensures WellShaped(CredentialExfiltration()) && CredentialExfiltration().code == CODE_CREDENTIAL_EXFILTRATION
  {
  }

  lemma PathSymlinkEscapeShape()
    ensures WellShaped(PathSymlinkEscape()) && PathSymlinkEscape().code == CODE_PATH_SYMLINK_ESCAPE
  {
  }

  lemma ObfuscatedExfiltrationShape()
    ensures WellShaped(ObfuscatedExfiltration()) && ObfuscatedExfiltration().code == CODE_OBFUSCATED_EXFILTRATION
  {
  }

  lemma TrustChainWeaknessShape()
    ensures WellShaped(TrustChainWeakness()) && TrustChainWeakness().code == CODE_TRUST_CHAIN_WEAKNESS
  {
    hide MetadataTrustCodes, LockfileIntegrityCodes;
  }

  lemma InterpreterTraversalShape()
    ensures WellShaped(InterpreterTraversal()) && InterpreterTraversal().code == CODE_INTERPRETER_TRAVERSAL
  {
  }

  lemma DefaultRulesShape(r: Rule)
    requires r in DefaultRules()
    ensures WellShaped(r)
    ensures r.code in {CODE_CREDENTIAL_EXFILTRATION, CODE_PATH_SYMLINK_ESCAPE, CODE_OBFUSCATED_EXFILTRATION,
                       CODE_TRUST_CHAIN_WEAKNESS, CODE_INTERPRETER_TRAVERSAL}
  {
    hide CredentialExfiltration, PathSymlinkEscape, ObfuscatedExfiltration, TrustChainWeakness, InterpreterTraversal;
    CredentialExfiltrationShape();
    PathSymlinkEscapeShape();
    ObfuscatedExfiltrationShape();
    TrustChainWeaknessShape();
    InterpreterTraversalShape();
  }

  lemma SoundRule(r: Rule, fs: seq<Finding>)
    requires Paired(r) && SidesApart(r)
    ensures (Fires(r, fs) <==> BothSidesMatched(r, fs)) && (Fires(r, fs) ==> RestsOnTwo(r, fs))
  {
    PairedRuleFiresIffMatched(r, fs);
    if Fires(r, fs) {
      ApartRuleRestsOnTwo(r, fs);
    }
  }

  /** Every default rule is accepted, fires exactly on matched sides, and rests on two findings. */
  lemma DefaultRulesSound(r: Rule, fs: seq<Finding>)
    requires r in DefaultRules()
    ensures !Degenerate(r)
    ensures Fires(r, fs) <==> BothSidesMatched(r, fs)
    ensures Fires(r, fs) ==> RestsOnTwo(r, fs)
  {
    hide DefaultRules;
    DefaultRulesShape(r);
    SoundRule(r, fs);
  }
}
