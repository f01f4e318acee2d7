/**
  The include collection validator of the configuration: unique cleaned paths, unique
  aliases, and aliases for all entries that share a short name.
*/
module Includes {
  datatype IncludeEntry = IncludeEntry(path: string, alias: string)

  /** Entry validation and the path functions of the host, as given functions. */
  datatype Host = Host(valid: IncludeEntry -> bool, clean: string -> string, shortName: string -> string)

  datatype Verdict =
    | Accepted
    | InvalidEntry(index: nat)
    | DuplicatePath(index: nat, first: nat)
    | DuplicateAlias(index: nat, existingPath: string)
    | AliasMissing(index: nat)

  predicate SamePath(h: Host, a: IncludeEntry, b: IncludeEntry) {
    h.clean(a.path) == h.clean(b.path)
  }

  predicate SameShortName(h: Host, a: IncludeEntry, b: IncludeEntry) {
    h.shortName(a.path) == h.shortName(b.path)
  }

  /** What the collection must satisfy. */
  ghost predicate Acceptable(h: Host, es: seq<IncludeEntry>) {
    && (forall i :: 0 <= i < |es| ==> h.valid(es[i]))
    && (forall i, j :: 0 <= i < j < |es| ==> !SamePath(h, es[i], es[j]))
    && (forall i, j :: 0 <= i < j < |es| && es[i].alias != "" ==> es[i].alias != es[j].alias)
    && (forall i, j :: 0 <= i < |es| && 0 <= j < |es| && i != j && SameShortName(h, es[i], es[j]) ==> es[i].alias != "")
  }

  /** The reported defect is really there. */
  ghost predicate Justified(h: Host, es: seq<IncludeEntry>, v: Verdict) {
    match v
    case Accepted => true
    case InvalidEntry(i) => i < |es| && !h.valid(es[i])
    case DuplicatePath(i, first) => first < i < |es| && SamePath(h, es[first], es[i])
    case DuplicateAlias(i, path) =>
      i < |es| && es[i].alias != "" && exists j :: 0 <= j < i && es[j].alias == es[i].alias && es[j].path == path
    case AliasMissing(i) =>
      i < |es| && es[i].alias == "" && exists j :: 0 <= j < |es| && j != i && SameShortName(h, es[i], es[j])
  }

  /** The indices below `n` of the entries with short name `name`, in order. */
  function Indices(h: Host, es: seq<IncludeEntry>, n: nat, name: string): (r: seq<nat>)
    requires n <= |es|
    ensures forall i: nat :: i in r <==> i < n && h.shortName(es[i].path) == name
    ensures forall k :: 0 <= k < |r| ==> r[k] < n && h.shortName(es[r[k]].path) == name
    ensures forall k :: 0 <= k < |r| - 1 ==> r[k] < r[k + 1]
  {
    if n == 0 then []
    else Indices(h, es, n - 1, name) + if h.shortName(es[n - 1].path) == name then [n - 1] else []
  }

  /** The first loop: each entry by itself and against the entries before it. */
  ghost predicate PrefixAcceptable(h: Host, es: seq<IncludeEntry>, n: nat)
    requires n <= |es|
  {
    && (forall i :: 0 <= i < n ==> h.valid(es[i]))
    && (forall i, j :: 0 <= i < j < n ==> !SamePath(h, es[i], es[j]))
    && (forall i, j :: 0 <= i < j < n && es[i].alias != "" ==> es[i].alias != es[j].alias)
  }

  // What the three maps of the first loop record about the first `n` entries.

  ghost predicate PathsRecorded(h: Host, es: seq<IncludeEntry>, n: nat, seen: map<string, nat>)
    requires n <= |es|
  {
    && (forall c :: c in seen ==> seen[c] < n && h.clean(es[seen[c]].path) == c)
    && (forall j :: 0 <= j < n ==> h.clean(es[j].path) in seen)
  }

  ghost predicate AliasesRecorded(es: seq<IncludeEntry>, n: nat, seen: map<string, string>)
    requires n <= |es|
  {
    && (forall a :: a in seen ==> a != "" && exists j :: 0 <= j < n && es[j].alias == a && es[j].path == seen[a])
    && (forall j :: 0 <= j < n && es[j].alias != "" ==> es[j].alias in seen)
  }

  ghost predicate NamesRecorded(h: Host, es: seq<IncludeEntry>, n: nat, names: map<string, seq<nat>>)
    requires n <= |es|
  {
    forall k :: if k in names then names[k] == Indices(h, es, n, k) else Indices(h, es, n, k) == []
  }

  /** `seenAliases` after an entry whose alias, if any, is new. */
  function WithAlias(seen: map<string, string>, e: IncludeEntry): map<string, string> {
    if e.alias == "" then seen else seen[e.alias := e.path]
  }

  lemma NextAlias(es: seq<IncludeEntry>, n: nat, seen: map<string, string>)
    requires n < |es| && AliasesRecorded(es, n, seen) && es[n].alias !in seen
    ensures AliasesRecorded(es, n + 1, WithAlias(seen, es[n]))
  {
    var next := WithAlias(seen, es[n]);
    forall a | a in next
      ensures a != "" && exists j :: 0 <= j < n + 1 && es[j].alias == a && es[j].path == next[a]
    {
      if a in seen {
        var j :| 0 <= j < n && es[j].alias == a && es[j].path == seen[a];
        assert es[j].path == next[a];
      } else {
        assert es[n].alias == a;
      }
    }
  }

  lemma NextPath(h: Host, es: seq<IncludeEntry>, n: nat, seen: map<string, nat>)
    requires n < |es| && PathsRecorded(h, es, n, seen)
    ensures h.clean(es[n].path) in seen <==> exists j :: 0 <= j < n && SamePath(h, es[j], es[n])
    ensures PathsRecorded(h, es, n + 1, seen[h.clean(es[n].path) := n])
  {
    if h.clean(es[n].path) in seen {
      assert SamePath(h, es[seen[h.clean(es[n].path)]], es[n]);
    }
  }

  /** `shortNames` after the entry at `n`. */
  function WithName(h: Host, es: seq<IncludeEntry>, n: nat, names: map<string, seq<nat>>): map<string, seq<nat>>
    requires n < |es|
  {
    var name := h.shortName(es[n].path);
    names[name := (if name in names then names[name] else []) + [n]]
  }

  lemma NextName(h: Host, es: seq<IncludeEntry>, n: nat, names: map<string, seq<nat>>)
    requires n < |es| && NamesRecorded(h, es, n, names)
    ensures NamesRecorded(h, es, n + 1, WithName(h, es, n, names))
  {
  }

  lemma AliasTaken(es: seq<IncludeEntry>, n: nat, seen: map<string, string>)
    requires n < |es| && AliasesRecorded(es, n, seen)
    ensures es[n].alias in seen <==> es[n].alias != "" && exists j :: 0 <= j < n && es[j].alias == es[n].alias
    ensures es[n].alias in seen ==>
      exists j :: 0 <= j < n && es[j].alias == es[n].alias && es[j].path == seen[es[n].alias]
  {
  }

  lemma NextPrefix(h: Host, es: seq<IncludeEntry>, n: nat)
    requires n < |es| && PrefixAcceptable(h, es, n)
    ensures PrefixAcceptable(h, es, n + 1)
       <==> h.valid(es[n]) && (forall j :: 0 <= j < n ==> !SamePath(h, es[j], es[n]))
            && (es[n].alias != "" ==> forall j :: 0 <= j < n ==> es[j].alias != es[n].alias)
    ensures !PrefixAcceptable(h, es, n + 1) ==> !PrefixAcceptable(h, es, |es|)
  {
  }

  /** The three maps of the first loop. */
  datatype Seen = Seen(aliases: map<string, string>, paths: map<string, nat>, shortNames: map<string, seq<nat>>)

  ghost predicate Recorded(h: Host, es: seq<IncludeEntry>, n: nat, seen: Seen)
    requires n <= |es|
  {
    PathsRecorded(h, es, n, seen.paths) && AliasesRecorded(es, n, seen.aliases) && NamesRecorded(h, es, n, seen.shortNames)
  }

  method CheckEntry(h: Host, es: seq<IncludeEntry>, i: nat, before: Seen) returns (v: Verdict, seen: Seen)
    requires i < |es| && Recorded(h, es, i, before) && PrefixAcceptable(h, es, i)
    ensures Justified(h, es, v) && !v.AliasMissing?
    ensures if v.Accepted? then PrefixAcceptable(h, es, i + 1) && Recorded(h, es, i + 1, seen)
            else !PrefixAcceptable(h, es, |es|)
  {
    seen := before;
    var entry := es[i];
    NextPrefix(h, es, i);
    if !h.valid(entry) {
      return InvalidEntry(i), seen;
    }
    var cleanPath := h.clean(entry.path);
    NextPath(h, es, i, seen.paths);
    if cleanPath in seen.paths {
      return DuplicatePath(i, seen.paths[cleanPath]), seen;
    }
    NextName(h, es, i, seen.shortNames);
    AliasTaken(es, i, seen.aliases);
    if entry.alias != "" {
      if entry.alias in seen.aliases {
        return DuplicateAlias(i, seen.aliases[entry.alias]), seen;
      }
    }
    NextAlias(es, i, seen.aliases);
    seen := Seen(WithAlias(seen.aliases, entry), seen.paths[cleanPath := i], WithName(h, es, i, seen.shortNames));
    v := Accepted;
  }

  method CheckEntries(h: Host, es: seq<IncludeEntry>) returns (v: Verdict, shortNames: map<string, seq<nat>>)
    ensures v.Accepted? <==> PrefixAcceptable(h, es, |es|)
    ensures Justified(h, es, v) && !v.AliasMissing?
    ensures v.Accepted? ==> NamesRecorded(h, es, |es|, shortNames)
  {
    var seen := Seen(map[], map[], map[]);
    for i := 0 to |es|
      invariant PrefixAcceptable(h, es, i) && Recorded(h, es, i, seen)
    {
      v, seen := CheckEntry(h, es, i, seen);
      if !v.Accepted? {
        return v, seen.shortNames;
      }
    }
    return Accepted, seen.shortNames;
  }

  /** All these entries have an alias, or there is only one. */
  ghost predicate Disambiguated(es: seq<IncludeEntry>, indices: seq<nat>) {
    |indices| < 2 || forall k :: 0 <= k < |indices| ==> indices[k] < |es| && es[indices[k]].alias != ""
  }

  method CheckShortName(h: Host, es: seq<IncludeEntry>, name: string, indices: seq<nat>) returns (v: Verdict)
    requires indices == Indices(h, es, |es|, name)
    ensures v.Accepted? || v.AliasMissing?
    ensures Justified(h, es, v)
    ensures v.Accepted? <==> Disambiguated(es, indices)
  {
    if |indices| < 2 {
      return Accepted;
    }
    for k := 0 to |indices|
      invariant forall l :: 0 <= l < k ==> es[indices[l]].alias != ""
    {
      var idx := indices[k];
      if es[idx].alias == "" {
        var other := if k == 0 then indices[1] else indices[k - 1];
        assert other in indices && idx in indices && other != idx && SameShortName(h, es[idx], es[other]);
        return AliasMissing(idx);
      }
    }
    v := Accepted;
  }

  lemma SharedNameNeedsAlias(h: Host, es: seq<IncludeEntry>, names: map<string, seq<nat>>, i: nat, j: nat)
    requires NamesRecorded(h, es, |es|, names)
    requires forall k :: k in names ==> Disambiguated(es, names[k])
    requires i < |es| && j < |es| && i != j && SameShortName(h, es[i], es[j])
    ensures es[i].alias != ""
  {
    var name := h.shortName(es[i].path);
    var indices := Indices(h, es, |es|, name);
    assert i in indices && j in indices;
    assert name in names && names[name] == indices;
  }

  /** `validateIncludes`: the map of short names is iterated in an arbitrary order. */
  method ValidateIncludes(h: Host, es: seq<IncludeEntry>) returns (v: Verdict)
    ensures v.Accepted? <==> Acceptable(h, es)
    ensures Justified(h, es, v)
  {
    var shortNames;
    v, shortNames := CheckEntries(h, es);
    if !v.Accepted? {
      return;
    }
    var names := shortNames.Keys;
    while names != {}
      invariant names <= shortNames.Keys && v.Accepted?
      invariant forall k :: k in shortNames.Keys - names ==> Disambiguated(es, shortNames[k])
      decreases names
    {
      var name :| name in names;
      v := CheckShortName(h, es, name, shortNames[name]);
      if !v.Accepted? {
        return;
      }
      names := names - {name};
    }
    forall i, j | 0 <= i < |es| && 0 <= j < |es| && i != j && SameShortName(h, es[i], es[j])
      ensures es[i].alias != ""
    {
      SharedNameNeedsAlias(h, es, shortNames, i, j);
    }
  }
}
