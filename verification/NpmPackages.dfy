/** The `packages` map of an npm lockfile (versions 2 and 3): the flat parser and the
    graph builder, and how far the two agree. */
module NpmPackages {
  import opened Graph
  import opened DependencyGraph
  import opened NpmGraph

  const NODE_MODULES: string := "node_modules/"

  /** The `resolved` field of an entry. */
  datatype Resolved = Absent | NotString | Resolved(url: string)

  /** One entry of the map, in iteration order; an absent version is empty, an absent
      dependency map has no names. */
  datatype Entry = Entry(key: string, version: string, resolved: Resolved, dependencies: seq<string>)

  /** The pattern occurs with its end at `end`. */
  predicate OccursBefore(s: string, pattern: string, end: nat)
    requires end <= |s|
  {
    |pattern| <= end && forall t :: 0 <= t < |pattern| ==> s[end - |pattern| + t] == pattern[t]
  }

  /** The last place up to `end` where an occurrence of the pattern ends, or zero. */
  function AfterLastOf(s: string, pattern: string, end: nat): (i: nat)
    requires end <= |s|
    ensures i <= end
    ensures i > 0 ==> OccursBefore(s, pattern, i)
  {
    if end == 0 || OccursBefore(s, pattern, end) then end else AfterLastOf(s, pattern, end - 1)
  }

  lemma {:induction false} NoneAfterLast(s: string, pattern: string, end: nat)
    requires end <= |s|
    ensures forall i: nat :: AfterLastOf(s, pattern, end) < i <= end ==> !OccursBefore(s, pattern, i)
  {
    if end > 0 && !OccursBefore(s, pattern, end) {
      NoneAfterLast(s, pattern, end - 1);
    }
  }

  /** The package name: what follows the last `node_modules/` of the key. */
  function EntryName(key: string): string {
    key[AfterLastOf(key, NODE_MODULES, |key|)..]
  }

  /** Every name is a suffix of its key, cut after a `node_modules/` or not at all, and
      the marker does not end later in the key. */
  lemma EntryNameMeaning(key: string)
    ensures exists i: nat :: i <= |key| && EntryName(key) == key[i..]
                             && (i == 0 || OccursBefore(key, NODE_MODULES, i))
                             && forall k: nat :: i < k <= |key| ==> !OccursBefore(key, NODE_MODULES, k)
  {
    NoneAfterLast(key, NODE_MODULES, |key|);
    var i := AfterLastOf(key, NODE_MODULES, |key|);
    assert EntryName(key) == key[i..];
  }

  /** The flat list of occurrences the graph builder works from. */
  function Occurrences(entries: seq<Entry>): seq<Occurrence> {
    if entries == [] then []
    else
      var e := entries[|entries| - 1];
      Occurrences(entries[..|entries| - 1])
      + (if EntryName(e.key) == "" then [] else [Occurrence(EntryName(e.key), e.version, e.dependencies)])
  }

  function NamesOf(entries: seq<Entry>): Names {
    Recorded(map[], Occurrences(entries))
  }

  function PackagesGraph(entries: seq<Entry>): Adjacency {
    GraphOf(NamesOf(entries), Occurrences(entries))
  }

  method CollectNames(entries: seq<Entry>) returns (names: NameTable)
    ensures fresh(names) && names.nodes == NamesOf(entries)
  {
    names := new NameTable();
    for i := 0 to |entries|
      invariant fresh(names) && names.nodes == NamesOf(entries[..i])
    {
      var e := entries[i];
      assert entries[..i + 1][..i] == entries[..i];
      var name := EntryName(e.key);
      if e.key != "" && name != "" {
        var o := Occurrence(name, e.version, e.dependencies);
        RecordedAppend(map[], Occurrences(entries[..i]), [o]);
        names.Record(o);
      } else {
        assert Occurrences(entries[..i]) + [] == Occurrences(entries[..i]);
      }
    }
    assert entries[..|entries|] == entries;
  }

  /** Two passes: the name table, then one edge per dependency that resolves. */
  method PackagesToGraph(entries: seq<Entry>) returns (graph: DependencyGraph)
    ensures fresh(graph) && graph.edges == PackagesGraph(entries)
  {
    var table := CollectNames(entries);
    var names := table.nodes;
    graph := new DependencyGraph();
    AddNodes(names, graph);
    for i := 0 to |entries|
      invariant fresh(graph) && graph.edges == GraphOf(names, Occurrences(entries[..i]))
    {
      var e := entries[i];
      assert entries[..i + 1][..i] == entries[..i];
      ghost var before := Occurrences(entries[..i]);
      assert before + [] == before && EdgePairs(names, before) + [] == EdgePairs(names, before);
      var o := Occurrence(EntryName(e.key), e.version, e.dependencies);
      if e.key != "" && o.name != "" {
        assert (before + [o])[..|before|] == before;
        if o.name in names {
          WithEdgesAppend(Isolated(names), EdgePairs(names, before), PairsTo(names[o.name], Resolve(names, o.needs)));
          PushRequirements(names, o, graph);
        }
      }
    }
    assert entries[..|entries|] == entries;
  }

  /** All dependencies, of all entries whose key ends in the name, that resolve. */
  function DependenciesOf(names: Names, entries: seq<Entry>, n: string): seq<NodeId> {
    if entries == [] then []
    else
      var e := entries[|entries| - 1];
      DependenciesOf(names, entries[..|entries| - 1], n)
      + (if EntryName(e.key) == n then Resolve(names, e.dependencies) else [])
  }

  lemma {:induction false} RequirementsAreDependencies(names: Names, entries: seq<Entry>, n: string)
    requires n != ""
    ensures RequirementsOf(names, Occurrences(entries), n) == DependenciesOf(names, entries, n)
  {
    if entries != [] {
      var e := entries[|entries| - 1];
      var before := Occurrences(entries[..|entries| - 1]);
      RequirementsAreDependencies(names, entries[..|entries| - 1], n);
      assert before + [] == before && RequirementsOf(names, before, n) + [] == RequirementsOf(names, before, n);
      if EntryName(e.key) != "" {
        var o := Occurrence(EntryName(e.key), e.version, e.dependencies);
        assert (before + [o])[..|before|] == before;
      }
    }
  }

  predicate Versions(e: Entry, n: string) {
    EntryName(e.key) == n && e.version != ""
  }

  /** An entry that decides its name's version: the last with that name that has one. */
  predicate DecidesVersion(entries: seq<Entry>, n: string, i: nat) {
    i < |entries| && Versions(entries[i], n) && forall j :: i < j < |entries| ==> !Versions(entries[j], n)
  }

  lemma NamesStep(entries: seq<Entry>)
    requires entries != []
    ensures var (e, before) := (entries[|entries| - 1], NamesOf(entries[..|entries| - 1]));
            NamesOf(entries) == if EntryName(e.key) != "" && e.version != ""
                                then before[EntryName(e.key) := NpmNode(EntryName(e.key), e.version)] else before
  {
    var e := entries[|entries| - 1];
    var before := Occurrences(entries[..|entries| - 1]);
    assert before + [] == before;
    if EntryName(e.key) != "" {
      assert (before + [Occurrence(EntryName(e.key), e.version, e.dependencies)])[..|before|] == before;
    }
  }

  lemma DecidedBefore(entries: seq<Entry>, n: string, i: nat)
    requires entries != [] && !Versions(entries[|entries| - 1], n)
    ensures DecidesVersion(entries, n, i) <==> DecidesVersion(entries[..|entries| - 1], n, i)
  {
    var init := entries[..|entries| - 1];
    assert forall j :: 0 <= j < |init| ==> init[j] == entries[j];
  }

  lemma LastDecides(entries: seq<Entry>, n: string)
    requires entries != [] && Versions(entries[|entries| - 1], n)
    ensures forall i: nat :: DecidesVersion(entries, n, i) <==> i == |entries| - 1
  {
    assert DecidesVersion(entries, n, |entries| - 1);
  }

  /** A name has a node iff some entry decides it, and the node has that version. */
  lemma {:induction false} NamesAreDecided(entries: seq<Entry>, n: string)
    requires n != ""
    ensures n in NamesOf(entries) <==> exists i: nat :: DecidesVersion(entries, n, i)
    ensures forall i: nat :: DecidesVersion(entries, n, i) ==>
              n in NamesOf(entries) && NamesOf(entries)[n] == NpmNode(n, entries[i].version)
  {
    if entries != [] {
      var (init, last) := (entries[..|entries| - 1], |entries| - 1);
      NamesStep(entries);
      if Versions(entries[last], n) {
        LastDecides(entries, n);
        assert DecidesVersion(entries, n, last);
      } else {
        NamesAreDecided(init, n);
        forall i: nat ensures DecidesVersion(entries, n, i) <==> DecidesVersion(init, n, i) {
          DecidedBefore(entries, n, i);
        }
        assert forall i: nat :: DecidesVersion(init, n, i) ==> init[i] == entries[i];
      }
    }
  }

  /** The graph exactly: one node per name, with the version of its deciding entry,
      and as edges every resolvable dependency of every entry with that name, so that
      shadowed duplicates add their dependencies to the node that won. */
  lemma PackagesGraphMeaning(entries: seq<Entry>)
    ensures var (names, graph) := (NamesOf(entries), PackagesGraph(entries));
            && graph.Keys == names.Values
            && (forall n :: n in names ==> OutEdges(graph, names[n]) == DependenciesOf(names, entries, n))
            && (forall m, t :: m in graph && t in graph[m] ==> t in graph)
  {
    var (names, occs) := (NamesOf(entries), Occurrences(entries));
    var graph := PackagesGraph(entries);
    RecordedIsWellNamed(map[], occs);
    GraphMeaning(names, occs);
    forall n | n in names ensures OutEdges(graph, names[n]) == DependenciesOf(names, entries, n) {
      EmptyIsNoName(entries);
      RequirementsAreDependencies(names, entries, n);
    }
    forall m, t | m in graph && t in graph[m] ensures t in graph {
      var n :| n in names && names[n] == m;
      RequirementsAreNodes(names, occs, n);
    }
  }

  lemma {:induction false} EmptyIsNoName(entries: seq<Entry>)
    ensures "" !in NamesOf(entries)
  {
    if entries != [] {
      NamesStep(entries);
      EmptyIsNoName(entries[..|entries| - 1]);
    }
  }

  lemma LastCharAfterPattern(key: string, prefix: string, pattern: string, c: char)
    requires key == prefix + pattern + [c] && pattern != "" && pattern[|pattern| - 1] != c
    ensures AfterLastOf(key, pattern, |key|) == |key| - 1
  {
    assert forall t :: 0 <= t < |pattern| ==> key[|prefix| + t] == pattern[t];
    assert OccursBefore(key, pattern, |key| - 1);
    assert key[|key| - |pattern| + (|pattern| - 1)] == c;
    assert !OccursBefore(key, pattern, |key|);
  }

  /** The later key decides, not the deeper one: these two keys are in map order, the
      nested copy of `c` is the first, and the graph takes the outer one's version. */
  lemma OuterVersionCanWin()
    ensures var entries := [Entry("node_modules/a/node_modules/c", "2.0.0", Absent, []),
                            Entry("node_modules/c", "1.0.0", Absent, [])];
            "c" in NamesOf(entries) && NamesOf(entries)["c"] == NpmNode("c", "1.0.0")
  {
    var entries := [Entry("node_modules/a/node_modules/c", "2.0.0", Absent, []),
                    Entry("node_modules/c", "1.0.0", Absent, [])];
    assert "" + NODE_MODULES + ['c'] == "node_modules/c";
    LastCharAfterPattern("node_modules/c", "", NODE_MODULES, 'c');
    assert EntryName("node_modules/c") == "c";
    assert DecidesVersion(entries, "c", 1);
    NamesAreDecided(entries, "c");
  }
}
