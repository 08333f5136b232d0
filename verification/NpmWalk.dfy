/** The walk over an npm lockfile's graph: what a requirement that did not resolve costs
    it, which is nothing, and what the promised floor would. */
module NpmWalk {
  import opened Verdicts
  import opened Graph
  import opened DependencyGraph
  import opened NpmGraph
  import opened NpmPackages
  import opened NpmFlat
  import opened TransitiveWalk
  import opened WalkDepth

  /** The edge provider of a parsed lockfile: a node it does not know has no edges. */
  function LockfileEdges(g: Adjacency): NodeId -> EdgeResult {
    (n: NodeId) => Edges(OutEdges(g, n))
  }

  function WalkOf(entries: seq<Entry>, scan: NodeId -> Verdict, maxDepth: nat, onDepthLimit: OnDepthLimit): Params {
    Params(LockfileEdges(PackagesGraph(entries)), scan, maxDepth, onDepthLimit)
  }

  // ------------------------------------------------------------------
  // Unresolved requirements leave no trace
  // ------------------------------------------------------------------

  /** The names that resolve, in order. */
  function Resolving(names: Names, required: seq<string>): seq<string> {
    if required == [] then []
    else
      var (init, last) := (required[..|required| - 1], required[|required| - 1]);
      if last in names then Resolving(names, init) + [last] else Resolving(names, init)
  }

  lemma {:induction false} ResolvingResolves(names: Names, required: seq<string>)
    ensures Resolve(names, Resolving(names, required)) == Resolve(names, required)
  {
    if required != [] {
      var (init, last) := (required[..|required| - 1], required[|required| - 1]);
      ResolvingResolves(names, init);
      assert Resolve(names, init) + [] == Resolve(names, init);
      if last in names {
        assert (Resolving(names, init) + [last])[..|Resolving(names, init)|] == Resolving(names, init);
      }
    }
  }

  /** The entries without the requirements that do not resolve. */
  function Pruned(names: Names, entries: seq<Entry>): (pruned: seq<Entry>)
    ensures |pruned| == |entries|
  {
    seq(|entries|, i requires 0 <= i < |entries| => entries[i].(dependencies := Resolving(names, entries[i].dependencies)))
  }

  lemma {:induction false} PrunedNames(names: Names, entries: seq<Entry>)
    ensures NamesOf(Pruned(names, entries)) == NamesOf(entries)
  {
    if entries != [] {
      var init := entries[..|entries| - 1];
      PrunedNames(names, init);
      assert Pruned(names, entries)[..|init|] == Pruned(names, init);
      NamesStep(entries);
      NamesStep(Pruned(names, entries));
    }
  }

  lemma {:induction false} PrunedEdges(names: Names, entries: seq<Entry>)
    ensures EdgePairs(names, Occurrences(Pruned(names, entries))) == EdgePairs(names, Occurrences(entries))
  {
    if entries != [] {
      var init := entries[..|entries| - 1];
      var e := entries[|entries| - 1];
      PrunedEdges(names, init);
      assert Pruned(names, entries)[..|init|] == Pruned(names, init);
      ResolvingResolves(names, e.dependencies);
      EdgesStep(names, entries);
      EdgesStep(names, Pruned(names, entries));
    }
  }

  lemma EdgesStep(names: Names, entries: seq<Entry>)
    requires entries != []
    ensures var e := entries[|entries| - 1];
            EdgePairs(names, Occurrences(entries)) == EdgePairs(names, Occurrences(entries[..|entries| - 1]))
              + (if EntryName(e.key) != "" && EntryName(e.key) in names
                 then PairsTo(names[EntryName(e.key)], Resolve(names, e.dependencies)) else [])
  {
    var e := entries[|entries| - 1];
    var before := Occurrences(entries[..|entries| - 1]);
    assert before + [] == before && EdgePairs(names, before) + [] == EdgePairs(names, before);
    if EntryName(e.key) != "" {
      assert (before + [Occurrence(EntryName(e.key), e.version, e.dependencies)])[..|before|] == before;
    }
  }

  /** A lockfile and the same lockfile without its unresolved requirements have one graph,
      so no walk tells them apart. */
  lemma UnresolvedIsSilent(entries: seq<Entry>, scan: NodeId -> Verdict, maxDepth: nat, onDepthLimit: OnDepthLimit)
    ensures PackagesGraph(Pruned(NamesOf(entries), entries)) == PackagesGraph(entries)
    ensures WalkOf(Pruned(NamesOf(entries), entries), scan, maxDepth, onDepthLimit)
         == WalkOf(entries, scan, maxDepth, onDepthLimit)
  {
    PrunedNames(NamesOf(entries), entries);
    PrunedEdges(NamesOf(entries), entries);
  }

  // ------------------------------------------------------------------
  // The promised floor
  // ------------------------------------------------------------------

  /** Some entry of this node's name requires a name without a node. */
  ghost predicate Misses(entries: seq<Entry>, n: NodeId) {
    exists i, d :: 0 <= i < |entries| && MissesHere(NamesOf(entries), entries[i], n, d)
  }

  predicate MissesHere(names: Names, e: Entry, n: NodeId, d: string) {
    EntryName(e.key) in names && names[EntryName(e.key)] == n && d in e.dependencies && d !in names
  }

  /** The edges the documentation promises: a node that misses a requirement reports it,
      and so warns. */
  ghost function PromisedEdges(entries: seq<Entry>): NodeId -> EdgeResult {
    (n: NodeId) =>
      if Misses(entries, n) then UnresolvedRange(n.name, "") else Edges(OutEdges(PackagesGraph(entries), n))
  }

  /** The walk passes iff everything reachable passes its own scan and nothing is cut; the
      walk with the promised floor passes iff, besides, nothing reachable misses a
      requirement. So the floor is missing exactly when a reachable package misses one. */
  lemma PassesDespiteUnresolvedIff(
      entries: seq<Entry>, scan: NodeId -> Verdict, maxDepth: nat, onDepthLimit: OnDepthLimit, root: NodeId)
    ensures var p := WalkOf(entries, scan, maxDepth, onDepthLimit);
            var q := Params(PromisedEdges(entries), scan, maxDepth, onDepthLimit);
            && (DfsWalk(p, root).0 == Pass <==>
                  (forall n :: Reaches(p, root, n) ==> scan(n) == Pass) && NoCut(DfsWalk(p, root).1))
            && (DfsWalk(q, root).0 == Pass <==>
                  DfsWalk(p, root).0 == Pass && forall n :: Reaches(p, root, n) ==> !Misses(entries, n))
  {
    var p := WalkOf(entries, scan, maxDepth, onDepthLimit);
    var q := Params(PromisedEdges(entries), scan, maxDepth, onDepthLimit);
    PassVouchesForEverythingReachable(p, root);
    PassVouchesForEverythingReachable(q, root);
    if DfsWalk(q, root).0 == Pass {
      assert forall n :: Reaches(q, root, n) ==> Clean(q, n);
      assert SameEdges(q, p, root);
      SameReaches(q, p, root);
      ShapeIgnoresVerdicts(q, p, root);
    } else if forall n :: Reaches(p, root, n) ==> !Misses(entries, n) {
      assert SameEdges(p, q, root);
      SameReaches(p, q, root);
      ShapeIgnoresVerdicts(p, q, root);
    }
  }

  const Gone := Entry("a", "1.0.0", Absent, ["gone"])

  lemma GoneIsMissed()
    ensures EntryName("a") == "a"
    ensures "a" in NamesOf([Gone]) && NamesOf([Gone])["a"] == NpmNode("a", "1.0.0") && "gone" !in NamesOf([Gone])
    ensures Misses([Gone], NpmNode("a", "1.0.0"))
  {
    assert EntryName("a") == "a";
    assert DecidesVersion([Gone], "a", 0);
    NamesAreDecided([Gone], "a");
    NamesAreDecided([Gone], "gone");
    assert "gone" !in NamesOf([Gone]) by {
      assert |"gone"| != |"a"|;
    }
    assert MissesHere(NamesOf([Gone]), [Gone][0], NpmNode("a", "1.0.0"), "gone");
  }

  /** The smallest case: a package that passes and requires one that is not in the lockfile. */
  lemma MissingDependencyPasses(maxDepth: nat, onDepthLimit: OnDepthLimit)
    ensures Misses([Gone], NpmNode("a", "1.0.0"))
    ensures DfsWalk(WalkOf([Gone], _ => Pass, maxDepth, onDepthLimit), NpmNode("a", "1.0.0")).0 == Pass
  {
    GoneIsMissed();
    PackagesGraphMeaning([Gone]);
    assert [Gone][..0] == [] && Gone.dependencies == ["gone"] && ["gone"][..0] == [];
    assert Resolve(NamesOf([Gone]), ["gone"]) == Resolve(NamesOf([Gone]), []) + [];
    assert DependenciesOf(NamesOf([Gone]), [Gone], "a") == [];
    LeafVerdict(WalkOf([Gone], _ => Pass, maxDepth, onDepthLimit), NpmNode("a", "1.0.0"));
  }

  // ------------------------------------------------------------------
  // Roots whose version did not win
  // ------------------------------------------------------------------

  lemma {:induction false} ResolvedAreKept(names: Names, required: seq<string>, d: string)
    requires d in required && d in names
    ensures names[d] in Resolve(names, required)
  {
    var (init, last) := (required[..|required| - 1], required[|required| - 1]);
    if d != last {
      assert required == init + [last];
      ResolvedAreKept(names, init, d);
    }
  }

  lemma {:induction false} RequirementIsDependency(names: Names, entries: seq<Entry>, i: nat, d: string)
    requires i < |entries| && d in entries[i].dependencies && d in names
    ensures names[d] in DependenciesOf(names, entries, EntryName(entries[i].key))
    decreases |entries|
  {
    var last := |entries| - 1;
    if i == last {
      ResolvedAreKept(names, entries[i].dependencies, d);
    } else {
      RequirementIsDependency(names, entries[..last], i, d);
    }
  }

  /** The walk from a versioned entry's own root reaches what the entry requires iff the
      entry's version is the one that its name's node carries; otherwise the root is a
      leaf. The node reaches it at the first step, whichever entry required it. */
  lemma RequirementsMoveToWinner(entries: seq<Entry>, p: Params, i: nat, d: string)
    requires p.edges == LockfileEdges(PackagesGraph(entries))
    requires i < |entries| && EntryName(entries[i].key) != "" && entries[i].version != ""
    requires d in entries[i].dependencies && d in NamesOf(entries)
    ensures EntryName(entries[i].key) in NamesOf(entries)
    ensures var (node, own) := (NamesOf(entries)[EntryName(entries[i].key)], NpmNode(EntryName(entries[i].key), entries[i].version));
            && Child(p, node, NamesOf(entries)[d])
            && (own != node ==> p.edges(own) == Edges([]))
  {
    var n := EntryName(entries[i].key);
    VersionedNameIsDecided(entries, i);
    NamesAreDecided(entries, n);
    PackagesGraphMeaning(entries);
    RequirementIsDependency(NamesOf(entries), entries, i, d);
    LoserHasNoNode(entries, n, entries[i].version);
  }

  /** And that node is itself a root iff some entry with its name and version is listed. */
  lemma WinnerIsRootIff(entries: seq<Entry>, n: string)
    requires n in NamesOf(entries)
    ensures (exists r :: r in FlatList(entries) && NpmNode(r.name, r.version) == NamesOf(entries)[n]) <==>
              exists j: nat :: DecidesVersion(entries, n, j) && exists e :: e in entries && Emits(e, n, entries[j].version)
  {
    EmptyIsNoName(entries);
    GraphNodeIsListedIff(entries, n);
    NamesAreDecided(entries, n);
  }

  lemma LoserHasNoNode(entries: seq<Entry>, n: string, version: string)
    requires n in NamesOf(entries)
    ensures NamesOf(entries)[n] != NpmNode(n, version) ==> OutEdges(PackagesGraph(entries), NpmNode(n, version)) == []
  {
    EmptyIsNoName(entries);
    RecordedIsWellNamed(map[], Occurrences(entries));
    PackagesGraphMeaning(entries);
  }

  /** So a blocked requirement is never held against a version that did not win, which is
      judged by its own scan alone, and always against the version that did, even if that
      one does not require it. */
  lemma WinnerIsBlamed(
      entries: seq<Entry>, scan: NodeId -> Verdict, maxDepth: nat, onDepthLimit: OnDepthLimit, i: nat, d: string)
    requires i < |entries| && EntryName(entries[i].key) != "" && entries[i].version != ""
    requires d in entries[i].dependencies && d in NamesOf(entries) && scan(NamesOf(entries)[d]) == Block
    requires EntryName(entries[i].key) in NamesOf(entries)
    requires NamesOf(entries)[EntryName(entries[i].key)] != NpmNode(EntryName(entries[i].key), entries[i].version)
    ensures var (p, n) := (WalkOf(entries, scan, maxDepth, onDepthLimit), EntryName(entries[i].key));
            && DfsWalk(p, NpmNode(n, entries[i].version)).0 == scan(NpmNode(n, entries[i].version))
            && DfsWalk(p, NamesOf(entries)[n]).0 != Pass
  {
    var (p, names, n) := (WalkOf(entries, scan, maxDepth, onDepthLimit), NamesOf(entries), EntryName(entries[i].key));
    RequirementsMoveToWinner(entries, p, i, d);
    LeafVerdict(p, NpmNode(n, entries[i].version));
    assert Hops(p, names[n], names[n], 0);
    assert Hops(p, names[n], names[d], 1);
    ReachableBlockIsNeverLost(p, names[n], names[d]);
  }

  lemma LeafVerdict(p: Params, root: NodeId)
    requires p.edges(root) == Edges([])
    ensures DfsWalk(p, root).0 == p.scan(root)
  {
    assert DescendAll(p, root, [], 0, Enter(p, root, 0, EMPTY)).0 == [];
    CombineOwn(p.scan(root), []);
  }
}
