/** The flat view of an npm lockfile: where each entry comes from, the list of
    dependencies the scan loop works on, and its agreement with the graph. */
module NpmFlat {
  import opened Verdicts
  import opened Text
  import opened Graph
  import opened NpmGraph
  import opened NpmPackages

  datatype Source = GitSource(url: string, ref: string) | RegistrySource(registry: string)

  datatype Dependency = Dependency(name: string, version: string, source: Source)

  // ------------------------------------------------------------------
  // Where an entry comes from
  // ------------------------------------------------------------------

  const GIT_PLUS_PREFIXES: seq<string> := ["git+https://", "git+ssh://", "git+http://"]
  const SHORTHANDS: seq<(string, string)> :=
    [("github:", "https://github.com/"), ("gitlab:", "https://gitlab.com/"), ("bitbucket:", "https://bitbucket.org/")]

  /** Cut at the first '#'. */
  function SplitRef(s: string): (string, string) {
    var i := IndexOf(s, '#');
    if i == |s| then (s, "") else (s[..i], s[i + 1..])
  }

  predicate IsGitPlus(s: string) {
    exists i :: 0 <= i < |GIT_PLUS_PREFIXES| && GIT_PLUS_PREFIXES[i] <= s
  }

  /** The first shorthand that fits, or the number of shorthands. */
  function ShorthandOf(s: string, i: nat): (k: nat)
    requires i <= |SHORTHANDS|
    ensures i <= k <= |SHORTHANDS|
    ensures k < |SHORTHANDS| ==> SHORTHANDS[k].0 <= s
    decreases |SHORTHANDS| - i
  {
    if i == |SHORTHANDS| || SHORTHANDS[i].0 <= s then i else ShorthandOf(s, i + 1)
  }

  /** `None` for an absent field and for one that is not a string. */
  function ClassifyResolved(r: Resolved): Option<Source> {
    if !r.Resolved? then None
    else if IsGitPlus(r.url) then
      var (url, ref) := SplitRef(r.url[4..]);
      Some(GitSource(url, ref))
    else
      var k := ShorthandOf(r.url, 0);
      if k < |SHORTHANDS| then
        var (path, ref) := SplitRef(r.url[|SHORTHANDS[k].0|..]);
        Some(GitSource(SHORTHANDS[k].1 + path, ref))
      else
        Some(RegistrySource("npm"))
  }

  /** The spelling a git source was read from: its marker, its place, and its ref
      behind a '#' unless there was none. */
  predicate Spells(s: string, marker: string, place: string, ref: string) {
    '#' !in place && (s == marker + place + "#" + ref || (ref == "" && s == marker + place))
  }

  lemma SplitRefSpells(marker: string, rest: string)
    ensures Spells(marker + rest, marker, SplitRef(rest).0, SplitRef(rest).1)
  {
    var i := IndexOf(rest, '#');
    if i < |rest| {
      assert rest == rest[..i] + "#" + rest[i + 1..];
      assert marker + rest == marker + rest[..i] + "#" + rest[i + 1..];
    }
  }

  /** Every git source can be traced back to the field it was read from. */
  lemma GitSourceSpelling(s: string)
    requires ClassifyResolved(Resolved(s)).value.GitSource?
    ensures var git := ClassifyResolved(Resolved(s)).value;
            Spells(s, "git+", git.url, git.ref)
            || exists k :: 0 <= k < |SHORTHANDS| && SHORTHANDS[k].1 <= git.url
                           && Spells(s, SHORTHANDS[k].0, git.url[|SHORTHANDS[k].1|..], git.ref)
  {
    if IsGitPlus(s) {
      assert GIT_PLUS_PREFIXES[0][..4] == "git+" && GIT_PLUS_PREFIXES[1][..4] == "git+"
          && GIT_PLUS_PREFIXES[2][..4] == "git+";
      assert s[..4] == "git+";
      assert s == "git+" + s[4..];
      SplitRefSpells("git+", s[4..]);
    } else {
      var k := ShorthandOf(s, 0);
      var marker := SHORTHANDS[k].0;
      assert s == marker + s[|marker|..];
      SplitRefSpells(marker, s[|marker|..]);
      var git := ClassifyResolved(Resolved(s)).value;
      assert git.url[|SHORTHANDS[k].1|..] == SplitRef(s[|marker|..]).0;
    }
  }

  // ------------------------------------------------------------------
  // The flat list
  // ------------------------------------------------------------------

  /** What one entry contributes: nothing without a name, with a `resolved` that is
      not a string, or, from a registry, without a version. */
  function EntryDependency(e: Entry): Option<Dependency> {
    var name := EntryName(e.key);
    if name == "" || e.resolved.NotString? then None
    else
      var source := if e.resolved.Absent? then RegistrySource("npm") else ClassifyResolved(e.resolved).value;
      if source.RegistrySource? && e.version == "" then None else Some(Dependency(name, e.version, source))
  }

  function Contributions(entries: seq<Entry>): seq<Option<Dependency>> {
    seq(|entries|, i requires 0 <= i < |entries| => EntryDependency(entries[i]))
  }

  function FlatList(entries: seq<Entry>): seq<Dependency> {
    Somes(Contributions(entries))
  }

  method ParsePackages(entries: seq<Entry>) returns (deps: seq<Dependency>)
    ensures deps == FlatList(entries)
  {
    deps := [];
    ghost var all := Contributions(entries);
    for i := 0 to |entries|
      invariant deps == Somes(all[..i])
    {
      var e := entries[i];
      assert all[..i + 1][..i] == all[..i] && all[i] == EntryDependency(e);
      if e.key == "" { continue; }
      var name := EntryName(e.key);
      if name == "" { continue; }
      var source;
      match ClassifyResolved(e.resolved) {
        case Some(s) => source := s;
        case None =>
          if e.resolved != Absent { continue; }
          source := RegistrySource("npm");
      }
      if source.RegistrySource? && e.version == "" { continue; }
      deps := deps + [Dependency(name, e.version, source)];
    }
    assert all[..|entries|] == all;
  }

  // ------------------------------------------------------------------
  // Agreement with the graph
  // ------------------------------------------------------------------

  /** An entry the flat list gives this name and version. */
  predicate Emits(e: Entry, name: string, version: string) {
    EntryName(e.key) == name && e.version == version && !e.resolved.NotString?
  }

  lemma EmittedIffListed(entries: seq<Entry>, name: string, version: string)
    requires name != "" && version != ""
    ensures (exists d :: d in FlatList(entries) && d.name == name && d.version == version)
       <==> exists e :: e in entries && Emits(e, name, version)
  {
    if d :| d in FlatList(entries) && d.name == name && d.version == version {
      var i := SomesSource(Contributions(entries), d);
      assert entries[i] in entries && Emits(entries[i], name, version);
    }
    if e :| e in entries && Emits(e, name, version) {
      var d := EntryDependency(e).value;
      var i :| 0 <= i < |entries| && entries[i] == e;
      SomesKeeps(Contributions(entries), i);
      assert d.name == name && d.version == version;
    }
  }

  /** The flat list knows a graph node iff some entry with that name and version has a
      `resolved` field that is absent or a string. */
  lemma GraphNodeIsListedIff(entries: seq<Entry>, n: string)
    requires n in NamesOf(entries)
    ensures (exists d :: d in FlatList(entries) && NpmNode(d.name, d.version) == NamesOf(entries)[n])
       <==> exists e :: e in entries && Emits(e, n, VersionOf(NamesOf(entries)[n]))
  {
    EmptyIsNoName(entries);
    RecordedIsWellNamed(map[], Occurrences(entries));
    EmittedIffListed(entries, n, NamesOf(entries)[n].version);
  }

  /** Every listed dependency with a version has its name in the graph. */
  lemma ListedNameHasNode(entries: seq<Entry>, d: Dependency)
    requires d in FlatList(entries) && d.version != ""
    ensures d.name in NamesOf(entries) && NamesOf(entries)[d.name] in PackagesGraph(entries)
  {
    var i := SomesSource(Contributions(entries), d);
    VersionedNameIsDecided(entries, i);
    NamesAreDecided(entries, d.name);
    PackagesGraphMeaning(entries);
  }

  lemma {:induction false} VersionedNameIsDecided(entries: seq<Entry>, i: nat)
    requires i < |entries| && entries[i].version != ""
    ensures exists j: nat :: i <= j && DecidesVersion(entries, EntryName(entries[i].key), j)
    decreases |entries|
  {
    var (last, n) := (|entries| - 1, EntryName(entries[i].key));
    if Versions(entries[last], n) {
      assert DecidesVersion(entries, n, last);
    } else {
      VersionedNameIsDecided(entries[..last], i);
      var j: nat :| i <= j && DecidesVersion(entries[..last], n, j);
      DecidedBefore(entries, n, j);
    }
  }

  predicate DistinctNames(entries: seq<Entry>) {
    forall i, j :: 0 <= i < j < |entries| ==> EntryName(entries[i].key) != EntryName(entries[j].key)
  }

  /** Named and versioned, but with a `resolved` field that is not a string. */
  predicate Unlisted(e: Entry) {
    EntryName(e.key) != "" && e.version != "" && e.resolved.NotString?
  }

  ghost function ListedNodes(entries: seq<Entry>): set<NodeId> {
    set d | d in FlatList(entries) && d.version != "" :: NpmNode(d.name, d.version)
  }

  lemma OnlyVersionOfName(entries: seq<Entry>, i: nat)
    requires DistinctNames(entries) && i < |entries| && EntryName(entries[i].key) != "" && entries[i].version != ""
    ensures var n := EntryName(entries[i].key);
            n in NamesOf(entries) && NamesOf(entries)[n] == NpmNode(n, entries[i].version)
  {
    assert DecidesVersion(entries, EntryName(entries[i].key), i);
    NamesAreDecided(entries, EntryName(entries[i].key));
  }

  lemma ListedAreNodes(entries: seq<Entry>)
    requires DistinctNames(entries)
    ensures ListedNodes(entries) <= NamesOf(entries).Values
  {
    forall d | d in FlatList(entries) && d.version != ""
      ensures NpmNode(d.name, d.version) in NamesOf(entries).Values
    {
      var i := SomesSource(Contributions(entries), d);
      OnlyVersionOfName(entries, i);
    }
  }

  lemma UnlistedIsMissing(entries: seq<Entry>, i: nat)
    requires DistinctNames(entries) && i < |entries| && Unlisted(entries[i])
    ensures NpmNode(EntryName(entries[i].key), entries[i].version) !in ListedNodes(entries)
  {
    var (n, version) := (EntryName(entries[i].key), entries[i].version);
    assert forall j :: 0 <= j < |entries| && j != i ==> EntryName(entries[j].key) != n;
    assert forall j :: 0 <= j < |entries| ==> !Emits(entries[j], n, version);
    EmittedIffListed(entries, n, version);
  }

  /** When no name is listed twice, the two readers see the same versioned packages
      iff no versioned entry has a `resolved` field that is not a string. */
  lemma ReadersAgreeIff(entries: seq<Entry>)
    requires DistinctNames(entries)
    ensures PackagesGraph(entries).Keys == ListedNodes(entries) <==> forall e :: e in entries ==> !Unlisted(e)
  {
    var names := NamesOf(entries);
    PackagesGraphMeaning(entries);
    ListedAreNodes(entries);
    EmptyIsNoName(entries);
    if forall e :: e in entries ==> !Unlisted(e) {
      forall n | n in names ensures names[n] in ListedNodes(entries) {
        NamesAreDecided(entries, n);
        var i: nat :| DecidesVersion(entries, n, i);
        assert entries[i] in entries && Emits(entries[i], n, entries[i].version);
        EmittedIffListed(entries, n, entries[i].version);
      }
    }
    if e :| e in entries && Unlisted(e) {
      var i :| 0 <= i < |entries| && entries[i] == e;
      OnlyVersionOfName(entries, i);
      UnlistedIsMissing(entries, i);
      assert names[EntryName(e.key)] in PackagesGraph(entries).Keys;
    }
  }
}
