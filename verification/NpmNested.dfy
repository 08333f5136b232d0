/** The nested `dependencies` tree of a version 1 npm lockfile, walked twice. */
module NpmNested {
  import opened DependencyGraph
  import opened NpmGraph

  /** One entry; an absent version is empty, an absent map has no members. */
  datatype Tree = Tree(name: string, version: string, needs: seq<string>, nested: seq<Tree>)

  function OccurrenceOf(t: Tree): Occurrence {
    Occurrence(t.name, t.version, t.needs)
  }

  /** All entries in preorder. */
  function Flatten(deps: seq<Tree>): seq<Occurrence> {
    if deps == [] then []
    else
      var t := deps[|deps| - 1];
      Flatten(deps[..|deps| - 1]) + [OccurrenceOf(t)] + Flatten(t.nested)
  }

  /** The entries the edge walk visits: it does not descend below a name without a node. */
  function Walked(names: Names, deps: seq<Tree>): seq<Occurrence> {
    if deps == [] then []
    else
      var t := deps[|deps| - 1];
      Walked(names, deps[..|deps| - 1]) + (if t.name in names then [OccurrenceOf(t)] + Walked(names, t.nested) else [])
  }

  /** The entries it leaves out. */
  function Skipped(names: Names, deps: seq<Tree>): seq<Occurrence> {
    if deps == [] then []
    else
      var t := deps[|deps| - 1];
      Skipped(names, deps[..|deps| - 1])
      + (if t.name in names then Skipped(names, t.nested) else [OccurrenceOf(t)] + Flatten(t.nested))
  }

  function NamesIn(deps: seq<Tree>): Names {
    Recorded(map[], Flatten(deps))
  }

  function NestedGraph(deps: seq<Tree>): Adjacency {
    GraphOf(NamesIn(deps), Walked(NamesIn(deps), deps))
  }

  // ------------------------------------------------------------------
  // The two recursive walks
  // ------------------------------------------------------------------

  method CollectNodes(deps: seq<Tree>, out: NameTable)
    modifies out
    ensures out.nodes == Recorded(old(out.nodes), Flatten(deps))
    decreases deps
  {
    ghost var start := out.nodes;
    for i := 0 to |deps|
      invariant out.nodes == Recorded(start, Flatten(deps[..i]))
    {
      assert deps[..i + 1][..i] == deps[..i];
      RecordedAppend(start, Flatten(deps[..i]), [OccurrenceOf(deps[i])]);
      RecordedAppend(start, Flatten(deps[..i]) + [OccurrenceOf(deps[i])], Flatten(deps[i].nested));
      out.Record(OccurrenceOf(deps[i]));
      CollectNodes(deps[i].nested, out);
    }
    assert deps[..|deps|] == deps;
  }

  method BuildEdges(deps: seq<Tree>, names: Names, graph: DependencyGraph)
    modifies graph
    ensures graph.edges == WithEdges(old(graph.edges), EdgePairs(names, Walked(names, deps)))
    decreases deps
  {
    ghost var start := graph.edges;
    for i := 0 to |deps|
      invariant graph.edges == WithEdges(start, EdgePairs(names, Walked(names, deps[..i])))
    {
      var t := deps[i];
      ghost var before := Walked(names, deps[..i]);
      assert deps[..i + 1][..i] == deps[..i] && before + [] == before;
      if t.name in names {
        WalkedEdges(start, names, before, t);
        PushRequirements(names, OccurrenceOf(t), graph);
        BuildEdges(t.nested, names, graph);
      }
    }
    assert deps[..|deps|] == deps;
  }

  lemma WalkedEdges(g: Adjacency, names: Names, before: seq<Occurrence>, t: Tree)
    requires t.name in names
    ensures WithEdges(g, EdgePairs(names, before + ([OccurrenceOf(t)] + Walked(names, t.nested))))
         == WithEdges(WithEdges(WithEdges(g, EdgePairs(names, before)), PairsTo(names[t.name], Resolve(names, t.needs))),
                      EdgePairs(names, Walked(names, t.nested)))
  {
    var (o, below) := (OccurrenceOf(t), Walked(names, t.nested));
    EdgePairsAppend(names, before, [o] + below);
    EdgePairsAppend(names, [o], below);
    EdgePairsOne(names, o);
    WithEdgesAppend(g, EdgePairs(names, before), EdgePairs(names, [o]) + EdgePairs(names, below));
    WithEdgesAppend(WithEdges(g, EdgePairs(names, before)), EdgePairs(names, [o]), EdgePairs(names, below));
  }

  lemma EdgePairsOne(names: Names, o: Occurrence)
    ensures EdgePairs(names, [o]) == if o.name in names then PairsTo(names[o.name], Resolve(names, o.needs)) else []
  {
    assert [o][..0] == [];
  }

  lemma {:induction false} EdgePairsAppend(names: Names, a: seq<Occurrence>, b: seq<Occurrence>)
    ensures EdgePairs(names, a + b) == EdgePairs(names, a) + EdgePairs(names, b)
  {
    if b == [] {
      assert a + b == a;
    } else {
      assert (a + b)[..|a + b| - 1] == a + b[..|b| - 1];
      EdgePairsAppend(names, a, b[..|b| - 1]);
    }
  }

  method NestedToGraph(deps: seq<Tree>) returns (graph: DependencyGraph)
    ensures fresh(graph) && graph.edges == NestedGraph(deps)
  {
    var table := new NameTable();
    CollectNodes(deps, table);
    graph := new DependencyGraph();
    AddNodes(table.nodes, graph);
    BuildEdges(deps, table.nodes, graph);
  }

  // ------------------------------------------------------------------
  // What the graph is
  // ------------------------------------------------------------------

  /** One node per name, the edges of a name's node are the resolvable requirements of
      its visited entries in preorder, and every target is a node. */
  lemma NestedGraphMeaning(deps: seq<Tree>)
    ensures var (names, graph) := (NamesIn(deps), NestedGraph(deps));
            && graph.Keys == names.Values
            && (forall n :: n in names ==> OutEdges(graph, names[n]) == RequirementsOf(names, Walked(names, deps), n))
            && (forall m, t :: m in graph && t in graph[m] ==> t in graph)
  {
    var (names, graph) := (NamesIn(deps), NestedGraph(deps));
    RecordedIsWellNamed(map[], Flatten(deps));
    GraphMeaning(names, Walked(names, deps));
    forall m, t | m in graph && t in graph[m] ensures t in graph {
      var n :| n in names && names[n] == m;
      RequirementsAreNodes(names, Walked(names, deps), n);
    }
  }

  lemma {:induction false} WalkedAndSkipped(names: Names, deps: seq<Tree>)
    ensures |EdgePairs(names, Flatten(deps))|
         == |EdgePairs(names, Walked(names, deps))| + |EdgePairs(names, Skipped(names, deps))|
    ensures EdgePairs(names, Skipped(names, deps)) == [] ==>
              EdgePairs(names, Walked(names, deps)) == EdgePairs(names, Flatten(deps))
    decreases deps
  {
    if deps != [] {
      var (init, t) := (deps[..|deps| - 1], deps[|deps| - 1]);
      WalkedAndSkipped(names, init);
      WalkedAndSkipped(names, t.nested);
      FlattenStep(names, deps);
      if t.name in names {
        WalkedStep(names, deps);
        EdgePairsAppend(names, Skipped(names, init), Skipped(names, t.nested));
      } else {
        SkippedStep(names, deps);
        assert Walked(names, init) + [] == Walked(names, init);
      }
    }
  }

  lemma FlattenStep(names: Names, deps: seq<Tree>)
    requires deps != []
    ensures var t := deps[|deps| - 1];
            EdgePairs(names, Flatten(deps)) == EdgePairs(names, Flatten(deps[..|deps| - 1]))
              + EdgePairs(names, [OccurrenceOf(t)]) + EdgePairs(names, Flatten(t.nested))
  {
    var t := deps[|deps| - 1];
    EdgePairsAppend(names, Flatten(deps[..|deps| - 1]) + [OccurrenceOf(t)], Flatten(t.nested));
    EdgePairsAppend(names, Flatten(deps[..|deps| - 1]), [OccurrenceOf(t)]);
  }

  lemma WalkedStep(names: Names, deps: seq<Tree>)
    requires deps != [] && deps[|deps| - 1].name in names
    ensures var t := deps[|deps| - 1];
            EdgePairs(names, Walked(names, deps)) == EdgePairs(names, Walked(names, deps[..|deps| - 1]))
              + EdgePairs(names, [OccurrenceOf(t)]) + EdgePairs(names, Walked(names, t.nested))
  {
    var t := deps[|deps| - 1];
    EdgePairsAppend(names, Walked(names, deps[..|deps| - 1]), [OccurrenceOf(t)] + Walked(names, t.nested));
    EdgePairsAppend(names, [OccurrenceOf(t)], Walked(names, t.nested));
  }

  lemma SkippedStep(names: Names, deps: seq<Tree>)
    requires deps != [] && deps[|deps| - 1].name !in names
    ensures var t := deps[|deps| - 1];
            EdgePairs(names, Skipped(names, deps)) == EdgePairs(names, Skipped(names, deps[..|deps| - 1]))
              + EdgePairs(names, [OccurrenceOf(t)]) + EdgePairs(names, Flatten(t.nested))
    ensures EdgePairs(names, [OccurrenceOf(deps[|deps| - 1])]) == []
  {
    var t := deps[|deps| - 1];
    EdgePairsAppend(names, Skipped(names, deps[..|deps| - 1]), [OccurrenceOf(t)] + Flatten(t.nested));
    EdgePairsAppend(names, [OccurrenceOf(t)], Flatten(t.nested));
    EdgePairsOne(names, OccurrenceOf(t));
  }

  /** The graph of the whole tree loses exactly the edges below names without a node,
      and is complete iff there are none. */
  lemma LostEdges(deps: seq<Tree>)
    ensures var names := NamesIn(deps);
            var whole := GraphOf(names, Flatten(deps));
            && EdgeTotal(whole) == EdgeTotal(NestedGraph(deps)) + |EdgePairs(names, Skipped(names, deps))|
            && (NestedGraph(deps) == whole <==> EdgePairs(names, Skipped(names, deps)) == [])
  {
    var names := NamesIn(deps);
    WalkedAndSkipped(names, deps);
    EdgeTotalOfPushed(Isolated(names), EdgePairs(names, Flatten(deps)));
    EdgeTotalOfPushed(Isolated(names), EdgePairs(names, Walked(names, deps)));
  }

  predicate AllVersioned(deps: seq<Tree>) {
    forall i :: 0 <= i < |deps| ==> deps[i].version != "" && AllVersioned(deps[i].nested)
  }

  /** When every entry has a version, nothing is skipped: the edges from a name are the
      resolvable requirements of all its entries in preorder. */
  lemma VersionedTreeIsComplete(deps: seq<Tree>)
    requires AllVersioned(deps)
    ensures var (names, graph) := (NamesIn(deps), NestedGraph(deps));
            Walked(names, deps) == Flatten(deps)
            && forall n :: n in names ==> OutEdges(graph, names[n]) == RequirementsOf(names, Flatten(deps), n)
  {
    VersionedNamesResolve(deps);
    WalksAll(NamesIn(deps), deps);
    NestedGraphMeaning(deps);
  }

  ghost predicate AllNamed(names: Names, occs: seq<Occurrence>) {
    forall o :: o in occs ==> o.name in names
  }

  lemma VersionedNamesResolve(deps: seq<Tree>)
    requires AllVersioned(deps)
    ensures AllNamed(NamesIn(deps), Flatten(deps))
  {
    VersionedOccurrences(deps);
    forall o | o in Flatten(deps) ensures o.name in NamesIn(deps) {
      NamedIffVersioned(Flatten(deps), o.name);
    }
  }

  lemma {:induction false} VersionedOccurrences(deps: seq<Tree>)
    requires AllVersioned(deps)
    ensures forall o :: o in Flatten(deps) ==> o.version != ""
    decreases deps
  {
    if deps != [] {
      var (init, t) := (deps[..|deps| - 1], deps[|deps| - 1]);
      assert forall i :: 0 <= i < |init| ==> init[i] == deps[i];
      VersionedOccurrences(init);
      VersionedOccurrences(t.nested);
    }
  }

  lemma {:induction false} WalksAll(names: Names, deps: seq<Tree>)
    requires AllNamed(names, Flatten(deps))
    ensures Walked(names, deps) == Flatten(deps)
    decreases deps
  {
    if deps != [] {
      var (init, t) := (deps[..|deps| - 1], deps[|deps| - 1]);
      assert OccurrenceOf(t) in Flatten(deps);
      WalksAll(names, init);
      WalksAll(names, t.nested);
      assert Flatten(deps) == Flatten(init) + ([OccurrenceOf(t)] + Flatten(t.nested));
    }
  }

  /** The node of a name carries the version of its last versioned entry in preorder. */
  lemma NodeIsLastVersion(deps: seq<Tree>, n: string)
    ensures n in NamesIn(deps) <==> exists i: nat :: IsWinner(Flatten(deps), n, i)
    ensures forall i: nat :: IsWinner(Flatten(deps), n, i) ==>
              n in NamesIn(deps) && NamesIn(deps)[n] == NpmNode(n, Flatten(deps)[i].version)
              && NamesIn(deps)[n] in NestedGraph(deps)
  {
    NamesHoldWinners(Flatten(deps), n);
    NestedGraphMeaning(deps);
  }
}
