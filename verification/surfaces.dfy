/**
  Surface identities: findings that a checker left without kind or key get them from
  the scanned surface they belong to, in place.
*/
module Surfaces {
  import opened Wrappers
  import opened Findings
  import opened Selection

  /** A scanned invowkfile or module. */
  datatype SurfaceIdentity = SurfaceIdentity(id: string, key: string, kind: SurfaceKind, path: string)

  /** A surface the finding may belong to, going by its ID and kind where it has them. */
  predicate Candidate(f: Finding, s: SurfaceIdentity) {
    && (f.surfaceID != "" ==> s.id == f.surfaceID)
    && (f.surfaceKind != Unset ==> s.kind == f.surfaceKind)
  }

  function Candidates(f: Finding, surfaces: seq<SurfaceIdentity>): seq<SurfaceIdentity> {
    if surfaces == [] then []
    else
      var s := surfaces[|surfaces| - 1];
      Candidates(f, surfaces[..|surfaces| - 1]) + if Candidate(f, s) then [s] else []
  }

  lemma {:induction false} CandidatesExact(f: Finding, surfaces: seq<SurfaceIdentity>)
    ensures forall s :: s in Candidates(f, surfaces) <==> s in surfaces && Candidate(f, s)
  {
    if surfaces == [] {
    } else {
      assert surfaces == surfaces[..|surfaces| - 1] + [surfaces[|surfaces| - 1]];
      CandidatesExact(f, surfaces[..|surfaces| - 1]);
    }
  }

  /** The surface has the ID and the kind of the finding, where the finding has them. */
  function Agrees(f: Finding): SurfaceIdentity -> bool {
    (s: SurfaceIdentity) => (f.surfaceID == "" || s.id == f.surfaceID) && (f.surfaceKind == Unset || s.kind == f.surfaceKind)
  }

  lemma {:induction false} CandidatesSelected(f: Finding, surfaces: seq<SurfaceIdentity>)
    ensures IsSelection(Candidates(f, surfaces), surfaces, Agrees(f))
  {
    if surfaces == [] {
      NothingToSelect(Agrees(f));
    } else {
      var front, s := surfaces[..|surfaces| - 1], surfaces[|surfaces| - 1];
      assert surfaces == front + [s];
      CandidatesSelected(f, front);
      SelectNext(Candidates(f, front), front, s, Agrees(f));
    }
  }

  /** `within(surface, path)`: the path lies inside the surface's directory. */
  predicate SamePath(surfacePath: string, findingPath: string, within: (string, string) -> bool) {
    surfacePath != "" && findingPath != "" && (surfacePath == findingPath || within(surfacePath, findingPath))
  }

  function FirstWithin(f: Finding, candidates: seq<SurfaceIdentity>, within: (string, string) -> bool): Option<SurfaceIdentity> {
    if candidates == [] then None
    else if SamePath(candidates[0].path, f.filePath, within) then Some(candidates[0])
    else FirstWithin(f, candidates[1..], within)
  }

  function Matched(f: Finding, surfaces: seq<SurfaceIdentity>, within: (string, string) -> bool): Option<SurfaceIdentity> {
    var candidates := Candidates(f, surfaces);
    if candidates == [] then None
    else if |candidates| == 1 || f.filePath == "" then Some(candidates[0])
    else match FirstWithin(f, candidates, within)
         case Some(s) => Some(s)
         case None => Some(candidates[0])
  }

  /** Only a missing kind and a missing key are filled; everything else is kept. */
  function Enriched(f: Finding, surfaces: seq<SurfaceIdentity>, within: (string, string) -> bool): Finding {
    match Matched(f, surfaces, within)
    case None => f
    case Some(s) =>
      f.(surfaceKind := if f.surfaceKind == Unset then s.kind else f.surfaceKind,
         surfaceKey := if f.surfaceKey == "" then s.key else f.surfaceKey)
  }

  function AllEnriched(fs: seq<Finding>, surfaces: seq<SurfaceIdentity>, within: (string, string) -> bool): (r: seq<Finding>)
    ensures |r| == |fs|
  {
    seq(|fs|, i requires 0 <= i < |fs| => Enriched(fs[i], surfaces, within))
  }

  /** It agrees, and the finding's file is at its path or inside it. */
  function Contains(f: Finding, within: (string, string) -> bool): SurfaceIdentity -> bool {
    (s: SurfaceIdentity) =>
      Agrees(f)(s) && s.path != "" && f.filePath != "" && (s.path == f.filePath || within(s.path, f.filePath))
  }

  /** The surface at `i` is the first that contains the file, or the first that agrees if none does. */
  ghost predicate MatchAt(f: Finding, surfaces: seq<SurfaceIdentity>, within: (string, string) -> bool, i: nat) {
    || FirstAt(surfaces, Contains(f, within), i)
    || (FirstAt(surfaces, Agrees(f), i) && forall s :: s in surfaces ==> !Contains(f, within)(s))
  }

  /** A match, if any surface agrees with the finding. */
  ghost predicate BestMatch(f: Finding, surfaces: seq<SurfaceIdentity>, within: (string, string) -> bool,
                            matched: Option<SurfaceIdentity>)
  {
    if exists s :: s in surfaces && Agrees(f)(s)
    then exists i: nat :: MatchAt(f, surfaces, within, i) && matched == Some(surfaces[i])
    else matched == None
  }

  lemma {:induction false} FirstWithinExact(f: Finding, c: seq<SurfaceIdentity>, within: (string, string) -> bool)
    ensures var containing := (s: SurfaceIdentity) => SamePath(s.path, f.filePath, within);
      if exists s :: s in c && containing(s)
      then exists k: nat :: FirstAt(c, containing, k) && FirstWithin(f, c, within) == Some(c[k])
      else FirstWithin(f, c, within) == None
  {
    var containing := (s: SurfaceIdentity) => SamePath(s.path, f.filePath, within);
    if c == [] {
    } else if containing(c[0]) {
      assert c[0] in c && FirstAt(c, containing, 0);
    } else {
      var rest := c[1..];
      assert c == [c[0]] + rest;
      FirstWithinExact(f, rest, within);
      if s :| s in rest && containing(s) {
        var k: nat :| FirstAt(rest, containing, k) && FirstWithin(f, rest, within) == Some(rest[k]);
        assert FirstAt(c, containing, k + 1);
      }
    }
  }

  lemma SameTests(f: Finding, within: (string, string) -> bool)
    ensures forall s :: Agrees(f)(s) <==> Candidate(f, s)
    ensures forall s :: Contains(f, within)(s) <==> Candidate(f, s) && SamePath(s.path, f.filePath, within)
  {
  }

  lemma MatchedContaining(f: Finding, surfaces: seq<SurfaceIdentity>, within: (string, string) -> bool)
    requires exists s :: s in Candidates(f, surfaces) && SamePath(s.path, f.filePath, within)
    ensures exists i: nat :: MatchAt(f, surfaces, within, i) && Matched(f, surfaces, within) == Some(surfaces[i])
  {
    hide Candidates, FirstWithin, Candidate, Agrees, Contains, IsSelection;
    var containing := (s: SurfaceIdentity) => SamePath(s.path, f.filePath, within);
    var c := Candidates(f, surfaces);
    CandidatesSelected(f, surfaces);
    FirstWithinExact(f, c, within);
    var k: nat :| FirstAt(c, containing, k) && FirstWithin(f, c, within) == Some(c[k]);
    assert Matched(f, surfaces, within) == Some(c[k]);
    var i := FirstOfPicked(c, surfaces, Agrees(f), containing, k);
    SameTests(f, within);
    assert FirstAt(surfaces, Contains(f, within), i);
  }

  lemma MatchedFirst(f: Finding, surfaces: seq<SurfaceIdentity>, within: (string, string) -> bool)
    requires Candidates(f, surfaces) != []
    requires forall s :: s in Candidates(f, surfaces) ==> !SamePath(s.path, f.filePath, within)
    ensures exists i: nat :: MatchAt(f, surfaces, within, i) && Matched(f, surfaces, within) == Some(surfaces[i])
  {
    hide Candidates, FirstWithin, Candidate, SamePath, Agrees, Contains, IsSelection;
    var c := Candidates(f, surfaces);
    CandidatesExact(f, surfaces);
    CandidatesSelected(f, surfaces);
    FirstWithinExact(f, c, within);
    SameTests(f, within);
    assert c[0] in c && Matched(f, surfaces, within) == Some(c[0]);
    var i := FirstOfPicked(c, surfaces, Agrees(f), Agrees(f), 0);
    assert FirstAt(surfaces, Agrees(f), i);
  }

  /** Which surface a finding is matched to, by position; none only if no surface agrees with it. */
  lemma MatchedExact(f: Finding, surfaces: seq<SurfaceIdentity>, within: (string, string) -> bool)
    ensures BestMatch(f, surfaces, within, Matched(f, surfaces, within))
  {
    hide Candidates, FirstWithin, MatchAt;
    CandidatesExact(f, surfaces);
    var c := Candidates(f, surfaces);
    if c == [] {
    } else if exists s :: s in c && SamePath(s.path, f.filePath, within) {
      MatchedContaining(f, surfaces, within);
    } else {
      MatchedFirst(f, surfaces, within);
    }
    assert c != [] ==> c[0] in c;
  }

  /**
    `matchSurfaceIdentity`: no surface only if none agrees with the finding; otherwise
    the first that contains the finding's file, or else the first that agrees.
  */
  method MatchSurfaceIdentity(f: Finding, surfaces: seq<SurfaceIdentity>, within: (string, string) -> bool)
    returns (matched: Option<SurfaceIdentity>)
    ensures matched == Matched(f, surfaces, within)
    ensures BestMatch(f, surfaces, within, matched)
  {
    MatchedExact(f, surfaces, within);
    hide BestMatch;
    var candidates := [];
    for i := 0 to |surfaces|
      invariant candidates == Candidates(f, surfaces[..i])
    {
      assert surfaces[..i + 1][..i] == surfaces[..i];
      if f.surfaceID != "" && surfaces[i].id != f.surfaceID {
        continue;
      }
      if f.surfaceKind != Unset && surfaces[i].kind != f.surfaceKind {
        continue;
      }
      candidates := candidates + [surfaces[i]];
    }
    assert surfaces[..|surfaces|] == surfaces;
    if |candidates| == 0 {
      return None;
    }
    if |candidates| == 1 || f.filePath == "" {
      return Some(candidates[0]);
    }
    for i := 0 to |candidates|
      invariant FirstWithin(f, candidates, within) == FirstWithin(f, candidates[i..], within)
    {
      assert candidates[i..][1..] == candidates[i + 1..];
      if SamePath(candidates[i].path, f.filePath, within) {
        return Some(candidates[i]);
      }
    }
    return Some(candidates[0]);
  }

  method EnrichFindings(findings: array<Finding>, surfaces: seq<SurfaceIdentity>, within: (string, string) -> bool)
    modifies findings
    ensures findings[..] == AllEnriched(old(findings[..]), surfaces, within)
  {
    for i := 0 to findings.Length
      invariant forall k :: 0 <= k < i ==> findings[k] == Enriched(old(findings[k]), surfaces, within)
      invariant forall k :: i <= k < findings.Length ==> findings[k] == old(findings[k])
    {
      var identity := MatchSurfaceIdentity(findings[i], surfaces, within);
      if identity.None? {
        continue;
      }
      if findings[i].surfaceKind == Unset {
        findings[i] := findings[i].(surfaceKind := identity.value.kind);
      }
      if findings[i].surfaceKey == "" {
        findings[i] := findings[i].(surfaceKey := identity.value.key);
      }
    }
  }

  /** Where `f` had no kind or no key, `e` has that of the surface at `i`. */
  predicate TakesFrom(e: Finding, f: Finding, surfaces: seq<SurfaceIdentity>, i: nat) {
    && i < |surfaces|
    && (f.surfaceKind == Unset ==> e.surfaceKind == surfaces[i].kind)
    && (f.surfaceKey == "" ==> e.surfaceKey == surfaces[i].key)
  }

  /** A missing kind and a missing key become those of the matched surface; nothing else changes. */
  lemma EnrichedExact(f: Finding, surfaces: seq<SurfaceIdentity>, within: (string, string) -> bool)
    ensures var e := Enriched(f, surfaces, within);
      && e.(surfaceKind := f.surfaceKind, surfaceKey := f.surfaceKey) == f
      && (f.surfaceKind != Unset ==> e.surfaceKind == f.surfaceKind)
      && (f.surfaceKey != "" ==> e.surfaceKey == f.surfaceKey)
    ensures (forall s :: s in surfaces ==> !Agrees(f)(s)) ==> Enriched(f, surfaces, within) == f
    ensures (exists s :: s in surfaces && Agrees(f)(s)) ==>
      exists i: nat :: MatchAt(f, surfaces, within, i) && TakesFrom(Enriched(f, surfaces, within), f, surfaces, i)
  {
    MatchedExact(f, surfaces, within);
  }

  /** A finding with a known surface ID and no kind yet takes the kind of a surface with that ID. */
  lemma EnrichedKind(f: Finding, surfaces: seq<SurfaceIdentity>, within: (string, string) -> bool)
    requires f.surfaceKind == Unset && f.surfaceID != ""
    requires exists s :: s in surfaces && s.id == f.surfaceID
    ensures exists s :: s in surfaces && s.id == f.surfaceID && Enriched(f, surfaces, within).surfaceKind == s.kind
  {
    var s :| s in surfaces && s.id == f.surfaceID;
    assert Agrees(f)(s);
    EnrichedExact(f, surfaces, within);
    var i: nat :| MatchAt(f, surfaces, within, i) && TakesFrom(Enriched(f, surfaces, within), f, surfaces, i);
    assert Agrees(f)(surfaces[i]) && surfaces[i] in surfaces;
  }
}
