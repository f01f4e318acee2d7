/**
  The correlator: findings are grouped by surface, and every surface yields its
  rules' compounds and its escalation.
*/
module Correlator {
  import opened Findings
  import opened CorrelationRules
  import opened Selection
  import opened SeverityEscalation

  function SurfaceKeyOf(f: Finding): string {
    if f.surfaceKey != "" then f.surfaceKey
    else if f.surfaceID != "" then f.surfaceID
    else f.filePath
  }

  function SurfaceKeys(fs: seq<Finding>): set<string> {
    set f | f in fs :: SurfaceKeyOf(f)
  }

  /** The findings of one surface, in order. */
  function Group(fs: seq<Finding>, key: string): seq<Finding> {
    if fs == [] then []
    else
      var f := fs[|fs| - 1];
      Group(fs[..|fs| - 1], key) + if SurfaceKeyOf(f) == key then [f] else []
  }

  lemma {:induction false} GroupExact(fs: seq<Finding>, key: string)
    ensures forall f :: f in Group(fs, key) <==> f in fs && SurfaceKeyOf(f) == key
  {
    if fs == [] {
    } else {
      assert fs == fs[..|fs| - 1] + [fs[|fs| - 1]];
      GroupExact(fs[..|fs| - 1], key);
    }
  }

  /** The group of a key: its findings, each as often and in order. */
  lemma {:induction false} GroupIsSelection(fs: seq<Finding>, key: string)
    ensures IsSelection(Group(fs, key), fs, (f: Finding) => SurfaceKeyOf(f) == key)
  {
    var keep := (f: Finding) => SurfaceKeyOf(f) == key;
    if fs == [] {
      NothingToSelect(keep);
    } else {
      var front, f := fs[..|fs| - 1], fs[|fs| - 1];
      assert fs == front + [f];
      GroupIsSelection(front, key);
      SelectNext(Group(front, key), front, f, keep);
    }
  }

  /** Findings with surface keys share a group exactly when the keys agree; without keys the IDs decide, then the paths. */
  lemma SameSurfaceIff(f: Finding, g: Finding)
    ensures f.surfaceKey != "" && g.surfaceKey != "" ==>
      (SurfaceKeyOf(f) == SurfaceKeyOf(g) <==> f.surfaceKey == g.surfaceKey)
    ensures f.surfaceKey == g.surfaceKey == "" && f.surfaceID != "" && g.surfaceID != "" ==>
      (SurfaceKeyOf(f) == SurfaceKeyOf(g) <==> f.surfaceID == g.surfaceID)
    ensures f.surfaceKey == g.surfaceKey == f.surfaceID == g.surfaceID == "" ==>
      (SurfaceKeyOf(f) == SurfaceKeyOf(g) <==> f.filePath == g.filePath)
  {
  }

  lemma NoGroup(fs: seq<Finding>, key: string)
    requires key !in SurfaceKeys(fs)
    ensures Group(fs, key) == []
  {
    GroupExact(fs, key);
    assert forall f :: f !in Group(fs, key);
  }

  /** The first non-empty surface ID of a surface's findings, or else its key. */
  function SurfaceIDOf(key: string, group: seq<Finding>): string
  {
    if group == [] then key
    else if group[0].surfaceID != "" then group[0].surfaceID
    else SurfaceIDOf(key, group[1..])
  }

  /** The first finding that has a surface ID has it at index `i`. */
  predicate FirstIDAt(group: seq<Finding>, i: nat) {
    i < |group| && group[i].surfaceID != "" && forall j :: 0 <= j < i ==> group[j].surfaceID == ""
  }

  /** The ID shown for a surface: that of its first finding that has one, or else the key. */
  lemma {:induction false} SurfaceIDExact(key: string, group: seq<Finding>)
    ensures if forall g :: g in group ==> g.surfaceID == "" then SurfaceIDOf(key, group) == key
            else exists i: nat :: FirstIDAt(group, i) && SurfaceIDOf(key, group) == group[i].surfaceID
  {
    if group == [] {
    } else if group[0].surfaceID != "" {
      assert group[0] in group && FirstIDAt(group, 0);
    } else {
      var rest := group[1..];
      assert group == [group[0]] + rest;
      SurfaceIDExact(key, rest);
      if g :| g in rest && g.surfaceID != "" {
        var i: nat :| FirstIDAt(rest, i) && SurfaceIDOf(key, rest) == rest[i].surfaceID;
        assert FirstIDAt(group, i + 1);
      }
    }
  }

  method CorrelationSurfaceID(key: string, group: seq<Finding>) returns (id: string)
    ensures id == SurfaceIDOf(key, group)
  {
    for i := 0 to |group|
      invariant SurfaceIDOf(key, group) == SurfaceIDOf(key, group[i..])
    {
      assert group[i..][1..] == group[i + 1..];
      if group[i].surfaceID != "" {
        return group[i].surfaceID;
      }
    }
    id := key;
  }

  /** Everything one surface yields: its rules' compounds, then its escalation. */
  function SurfaceBuilt(rules: seq<Rule>, fs: seq<Finding>, key: string): seq<Built> {
    var group := Group(fs, key);
    var id := SurfaceIDOf(key, group);
    RuleFindings(rules, id, key, group) + EscalationFindings(id, key, group)
  }

  /** What a surface yields: one compound per fired rule, in rule order, then its escalation. */
  lemma SurfaceBuiltExact(rules: seq<Rule>, fs: seq<Finding>, key: string) returns (byRule: seq<Built>)
    ensures var group := Group(fs, key);
      var id := SurfaceIDOf(key, group);
      && IsImage(byRule, rules, (r: Rule) => Fires(r, group), (r: Rule) => FromRule(r, id, key, group))
      && SurfaceBuilt(rules, fs, key) == byRule + EscalationFindings(id, key, group)
  {
    var group := Group(fs, key);
    RuleFindingsExact(rules, SurfaceIDOf(key, group), key, group);
    byRule := RuleFindings(rules, SurfaceIDOf(key, group), key, group);
  }

  /** All compounds when the surfaces are visited in the given order. */
  function BuiltInOrder(rules: seq<Rule>, fs: seq<Finding>, order: seq<string>): seq<Built> {
    if order == [] then []
    else BuiltInOrder(rules, fs, order[..|order| - 1]) + SurfaceBuilt(rules, fs, order[|order| - 1])
  }

  /** Each surface exactly once. */
  ghost predicate VisitsEach(order: seq<string>, keys: set<string>) {
    && (forall k :: k in order <==> k in keys)
    && (forall i, j :: 0 <= i < j < |order| ==> order[i] != order[j])
  }

  method GroupBySurface(fs: seq<Finding>) returns (bySurface: map<string, seq<Finding>>)
    ensures bySurface.Keys == SurfaceKeys(fs)
    ensures forall k :: k in bySurface ==> bySurface[k] == Group(fs, k)
  {
    bySurface := map[];
    for i := 0 to |fs|
      invariant bySurface.Keys == SurfaceKeys(fs[..i])
      invariant forall k :: k in bySurface ==> bySurface[k] == Group(fs[..i], k)
    {
      assert fs[..i + 1][..i] == fs[..i] && fs[..i + 1] == fs[..i] + [fs[i]];
      var key := SurfaceKeyOf(fs[i]);
      if key !in bySurface {
        NoGroup(fs[..i], key);
      }
      var group := if key in bySurface then bySurface[key] else [];
      assert group == Group(fs[..i], key);
      bySurface := bySurface[key := group + [fs[i]]];
    }
    assert fs[..|fs|] == fs;
  }

  /** Every visited surface contributes all it yields, and nothing else is built. */
  lemma {:induction false} BuiltExact(rules: seq<Rule>, fs: seq<Finding>, order: seq<string>, b: Built)
    ensures b in BuiltInOrder(rules, fs, order) <==> exists key :: key in order && b in SurfaceBuilt(rules, fs, key)
  {
    if order == [] {
    } else {
      var front := order[..|order| - 1];
      assert order == front + [order[|order| - 1]];
      BuiltExact(rules, fs, front, b);
    }
  }

  lemma CompoundsConcat(a: seq<Built>, b: seq<Built>)
    ensures Compounds(a + b) == Compounds(a) + Compounds(b)
  {
  }

  method CorrelateSurface(rules: seq<Rule>, ghost fs: seq<Finding>, key: string, group: seq<Finding>)
    returns (compounds: seq<Finding>)
    requires group == Group(fs, key)
    ensures compounds == Compounds(SurfaceBuilt(rules, fs, key))
  {
    var id := CorrelationSurfaceID(key, group);
    compounds := ApplyRules(rules, id, key, group);
    var escalations := ApplyEscalation(id, key, group);
    CompoundsConcat(RuleFindings(rules, id, key, group), EscalationFindings(id, key, group));
    compounds := compounds + escalations;
  }

  lemma {:induction false} VisitOneMore(rules: seq<Rule>, fs: seq<Finding>, order: seq<string>, key: string,
                                        all: set<string>, left: set<string>)
    requires VisitsEach(order, all - left) && key in left && left <= all
    ensures VisitsEach(order + [key], all - (left - {key}))
    ensures Compounds(BuiltInOrder(rules, fs, order + [key]))
            == Compounds(BuiltInOrder(rules, fs, order)) + Compounds(SurfaceBuilt(rules, fs, key))
  {
    assert (order + [key])[..|order|] == order;
    CompoundsConcat(BuiltInOrder(rules, fs, order), SurfaceBuilt(rules, fs, key));
  }

  /** `Correlate`: the surface map is iterated in an arbitrary order. */
  method Correlate(rules: seq<Rule>, fs: seq<Finding>) returns (correlated: seq<Finding>)
    ensures exists order :: VisitsEach(order, SurfaceKeys(fs)) && correlated == Compounds(BuiltInOrder(rules, fs, order))
  {
    var bySurface := GroupBySurface(fs);
    correlated := [];
    ghost var order: seq<string> := [];
    var keys := bySurface.Keys;
    while keys != {}
      invariant keys <= bySurface.Keys
      invariant VisitsEach(order, bySurface.Keys - keys)
      invariant correlated == Compounds(BuiltInOrder(rules, fs, order))
      decreases keys
    {
      var key :| key in keys;
      var compounds := CorrelateSurface(rules, fs, key, bySurface[key]);
      VisitOneMore(rules, fs, order, key, bySurface.Keys, keys);
      correlated := correlated + compounds;
      keys, order := keys - {key}, order + [key];
    }
  }
}
