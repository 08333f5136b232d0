/** The graph of a Cargo lockfile: every package a node, every dependency hint an edge
    to the first package in file order that fits it. */
module CargoGraph {
  import opened Verdicts
  import opened Text
  import opened Graph
  import opened DependencyGraph

  /** One `[[package]]` entry; absent strings are empty, an absent dependency array has
      no members, and a member that is not a string is `None`. */
  datatype Entry = Entry(name: string, version: string, source: Option<string>, hints: seq<Option<string>>)

  datatype Package = Package(name: string, version: string, node: NodeId)

  function NodeOf(e: Entry): NodeId {
    if e.source.None? then Registry(e.name, e.version, "local")
    else
      var s := e.source.value;
      if "git+" <= s then
        var rest := s[4..];
        var i := IndexOf(rest, '#');
        Git(e.name, if i < |rest| then rest[i + 1..] else "")
      else if "registry+" <= s then Registry(e.name, e.version, "crates")
      else Registry(e.name, e.version, "local")
  }

  function PackageOf(e: Entry): Package {
    Package(e.name, e.version, NodeOf(e))
  }

  /** The packages with a name; entries without one are dropped. */
  function Packages(entries: seq<Entry>): (pkgs: seq<Package>)
    ensures |pkgs| <= |entries|
  {
    if entries == [] then []
    else
      var e := entries[|entries| - 1];
      Packages(entries[..|entries| - 1]) + (if e.name == "" then [] else [PackageOf(e)])
  }

  /** A hint is a name and perhaps a version, ended by blanks; the rest is ignored. */
  function HintName(hint: string): string {
    hint[..IndexOf(hint, ' ')]
  }

  function HintVersion(hint: string): string {
    var i := IndexOf(hint, ' ');
    if i == |hint| then "" else HintName(hint[i + 1..])
  }

  predicate Fits(p: Package, hint: string) {
    p.name == HintName(hint) && (HintVersion(hint) == "" || HintVersion(hint) == p.version)
  }

  /** The first package that fits, or the number of packages. */
  method FindPackage(pkgs: seq<Package>, hint: string) returns (k: nat)
    ensures IsFirstFit(pkgs, hint, k)
  {
    k := 0;
    while k < |pkgs| && !Fits(pkgs[k], hint)
      invariant k <= |pkgs|
      invariant forall j :: 0 <= j < k ==> !Fits(pkgs[j], hint)
    {
      k := k + 1;
    }
  }

  predicate IsFirstFit(pkgs: seq<Package>, hint: string, k: nat) {
    k <= |pkgs| && (forall j :: 0 <= j < k ==> !Fits(pkgs[j], hint)) && (k < |pkgs| ==> Fits(pkgs[k], hint))
  }

  function FirstFit(pkgs: seq<Package>, hint: string, from: nat): (k: nat)
    requires from <= |pkgs|
    ensures from <= k <= |pkgs|
    ensures forall j :: from <= j < k ==> !Fits(pkgs[j], hint)
    ensures k < |pkgs| ==> Fits(pkgs[k], hint)
    decreases |pkgs| - from
  {
    if from == |pkgs| || Fits(pkgs[from], hint) then from else FirstFit(pkgs, hint, from + 1)
  }

  /** The package a hint resolves to. */
  function Target(pkgs: seq<Package>, hint: Option<string>): Option<NodeId> {
    if hint.None? then None
    else
      var k := FirstFit(pkgs, hint.value, 0);
      if k < |pkgs| then Some(pkgs[k].node) else None
  }

  /** The edges of one package, in hint order. */
  function HintEdges(pkgs: seq<Package>, from: NodeId, hints: seq<Option<string>>): seq<(NodeId, NodeId)> {
    if hints == [] then []
    else
      var t := Target(pkgs, hints[|hints| - 1]);
      HintEdges(pkgs, from, hints[..|hints| - 1]) + (if t.Some? then [(from, t.value)] else [])
  }

  /** The edges of all entries, each from its own package's node. */
  function AllEdges(pkgs: seq<Package>, entries: seq<Entry>): seq<(NodeId, NodeId)> {
    if entries == [] then []
    else
      var e := entries[|entries| - 1];
      AllEdges(pkgs, entries[..|entries| - 1]) + HintEdges(pkgs, NodeOf(e), e.hints)
  }

  function Nodes(pkgs: seq<Package>): Adjacency {
    if pkgs == [] then map[] else WithNode(Nodes(pkgs[..|pkgs| - 1]), pkgs[|pkgs| - 1].node)
  }

  function CargoGraphOf(entries: seq<Entry>): Adjacency {
    WithEdges(Nodes(Packages(entries)), AllEdges(Packages(entries), entries))
  }

  // ------------------------------------------------------------------
  // The two passes
  // ------------------------------------------------------------------

  method CollectPackages(entries: seq<Entry>) returns (pkgs: seq<Package>)
    ensures pkgs == Packages(entries)
  {
    pkgs := [];
    for i := 0 to |entries|
      invariant pkgs == Packages(entries[..i])
    {
      assert entries[..i + 1][..i] == entries[..i] && pkgs + [] == pkgs;
      if entries[i].name != "" {
        pkgs := pkgs + [PackageOf(entries[i])];
      }
    }
    assert entries[..|entries|] == entries;
  }

  /** A lockfile for which the second pass leaves the list of packages. */
  lemma UnnamedEntryIsOutOfRange()
    ensures var (named, unnamed) := (Entry("a", "1", None, []), Entry("", "1", None, []));
            |Packages([named, unnamed])| == 1 && |Packages([unnamed, named])| == 1
  {
    var (named, unnamed) := (Entry("a", "1", None, []), Entry("", "1", None, []));
    assert [named, unnamed][..1] == [named] && [unnamed, named][..1] == [unnamed];
    assert [named][..0] == [] && [unnamed][..0] == [];
  }

  lemma {:induction false} PackagesAlign(entries: seq<Entry>)
    ensures |Packages(entries)| == |entries| <==> forall e :: e in entries ==> e.name != ""
    ensures |Packages(entries)| == |entries| ==>
              forall i :: 0 <= i < |entries| ==> Packages(entries)[i] == PackageOf(entries[i])
  {
    if entries != [] {
      PackagesAlign(entries[..|entries| - 1]);
      assert entries == entries[..|entries| - 1] + [entries[|entries| - 1]];
    }
  }

  lemma HintEdgesStep(pkgs: seq<Package>, from: NodeId, hints: seq<Option<string>>, i: nat)
    requires i < |hints|
    ensures var (before, t) := (HintEdges(pkgs, from, hints[..i]), Target(pkgs, hints[i]));
            HintEdges(pkgs, from, hints[..i + 1]) == if t.Some? then before + [(from, t.value)] else before
  {
    assert hints[..i + 1][..i] == hints[..i];
    assert HintEdges(pkgs, from, hints[..i]) + [] == HintEdges(pkgs, from, hints[..i]);
  }

  lemma WithEdgesPush(g: Adjacency, pairs: seq<(NodeId, NodeId)>, from: NodeId, to: NodeId)
    ensures WithEdges(g, pairs + [(from, to)]) == WithEdge(WithEdges(g, pairs), from, to)
  {
    assert (pairs + [(from, to)])[..|pairs|] == pairs;
  }

  method PushHints(pkgs: seq<Package>, from: NodeId, hints: seq<Option<string>>, graph: DependencyGraph)
    modifies graph
    ensures graph.edges == WithEdges(old(graph.edges), HintEdges(pkgs, from, hints))
  {
    for i := 0 to |hints|
      invariant graph.edges == WithEdges(old(graph.edges), HintEdges(pkgs, from, hints[..i]))
    {
      HintEdgesStep(pkgs, from, hints, i);
      if hints[i].Some? {
        var k := FindPackage(pkgs, hints[i].value);
        FirstFitIsUnique(pkgs, hints[i].value, k);
        if k < |pkgs| {
          WithEdgesPush(old(graph.edges), HintEdges(pkgs, from, hints[..i]), from, pkgs[k].node);
          graph.PushEdge(from, pkgs[k].node);
        }
      }
    }
    assert hints[..|hints|] == hints;
  }

  lemma FirstFitIsUnique(pkgs: seq<Package>, hint: string, k: nat)
    requires IsFirstFit(pkgs, hint, k)
    ensures k == FirstFit(pkgs, hint, 0)
  {
  }

  /** `None` is the out-of-range panic: the second pass indexes the named packages by
      the position of the entry among all entries. */
  method CargoToGraph(entries: seq<Entry>) returns (graph: Option<DependencyGraph>)
    ensures graph.None? <==> exists e :: e in entries && e.name == ""
    ensures graph.Some? ==> fresh(graph.value) && graph.value.edges == CargoGraphOf(entries)
  {
    var pkgs := CollectPackages(entries);
    PackagesAlign(entries);
    var g := new DependencyGraph();
    for i := 0 to |pkgs|
      invariant g.edges == Nodes(pkgs[..i])
    {
      assert pkgs[..i + 1][..i] == pkgs[..i];
      g.AddNode(pkgs[i].node);
    }
    assert pkgs[..|pkgs|] == pkgs;
    for i := 0 to |entries|
      invariant i <= |pkgs|
      invariant |pkgs| == |entries| ==> g.edges == WithEdges(Nodes(pkgs), AllEdges(pkgs, entries[..i]))
    {
      if i >= |pkgs| { return None; }
      PushHints(pkgs, pkgs[i].node, entries[i].hints, g);
      if |pkgs| == |entries| {
        AllEdgesStep(pkgs, entries, i);
      }
    }
    assert entries[..|entries|] == entries;
    return Some(g);
  }

  lemma AllEdgesStep(pkgs: seq<Package>, entries: seq<Entry>, i: nat)
    requires i < |entries|
    ensures WithEdges(Nodes(pkgs), AllEdges(pkgs, entries[..i + 1]))
         == WithEdges(WithEdges(Nodes(pkgs), AllEdges(pkgs, entries[..i])),
                      HintEdges(pkgs, NodeOf(entries[i]), entries[i].hints))
  {
    assert entries[..i + 1][..i] == entries[..i];
    WithEdgesAppend(Nodes(pkgs), AllEdges(pkgs, entries[..i]), HintEdges(pkgs, NodeOf(entries[i]), entries[i].hints));
  }

  // ------------------------------------------------------------------
  // What the graph is
  // ------------------------------------------------------------------

  /** What the hints of all entries with one node resolve to, in file order. */
  function ResolvedHints(pkgs: seq<Package>, hints: seq<Option<string>>): seq<NodeId> {
    if hints == [] then []
    else
      var t := Target(pkgs, hints[|hints| - 1]);
      ResolvedHints(pkgs, hints[..|hints| - 1]) + (if t.Some? then [t.value] else [])
  }

  function HintsOfNode(pkgs: seq<Package>, entries: seq<Entry>, n: NodeId): seq<NodeId> {
    if entries == [] then []
    else
      var e := entries[|entries| - 1];
      HintsOfNode(pkgs, entries[..|entries| - 1], n) + (if NodeOf(e) == n then ResolvedHints(pkgs, e.hints) else [])
  }

  function StringHints(entries: seq<Entry>): nat {
    if entries == [] then 0
    else StringHints(entries[..|entries| - 1]) + Strings(entries[|entries| - 1].hints)
  }

  function Strings(hints: seq<Option<string>>): nat {
    if hints == [] then 0 else Strings(hints[..|hints| - 1]) + if hints[|hints| - 1].Some? then 1 else 0
  }

  function Unresolved(pkgs: seq<Package>, entries: seq<Entry>): nat {
    if entries == [] then 0
    else Unresolved(pkgs, entries[..|entries| - 1]) + UnresolvedHints(pkgs, entries[|entries| - 1].hints)
  }

  /** String hints that fit no package. */
  function UnresolvedHints(pkgs: seq<Package>, hints: seq<Option<string>>): nat {
    if hints == [] then 0
    else
      UnresolvedHints(pkgs, hints[..|hints| - 1])
      + if hints[|hints| - 1].Some? && forall p :: p in pkgs ==> !Fits(p, hints[|hints| - 1].value) then 1 else 0
  }

  lemma {:induction false} HintEdgesTargets(pkgs: seq<Package>, from: NodeId, hints: seq<Option<string>>, n: NodeId)
    ensures TargetsFrom(HintEdges(pkgs, from, hints), n) == if n == from then ResolvedHints(pkgs, hints) else []
    ensures |HintEdges(pkgs, from, hints)| + UnresolvedHints(pkgs, hints) == Strings(hints)
    ensures forall e :: e in HintEdges(pkgs, from, hints) ==> e.0 == from && exists p :: p in pkgs && p.node == e.1
  {
    if hints != [] {
      var (init, h) := (hints[..|hints| - 1], hints[|hints| - 1]);
      var before := HintEdges(pkgs, from, init);
      HintEdgesTargets(pkgs, from, init, n);
      assert before + [] == before && ResolvedHints(pkgs, init) + [] == ResolvedHints(pkgs, init);
      if h.Some? {
        var k := FirstFit(pkgs, h.value, 0);
        if k < |pkgs| {
          assert pkgs[k] in pkgs;
          assert (before + [(from, pkgs[k].node)])[..|before|] == before;
        }
      }
    }
  }

  lemma {:induction false} AllEdgesTargets(pkgs: seq<Package>, entries: seq<Entry>, n: NodeId)
    ensures TargetsFrom(AllEdges(pkgs, entries), n) == HintsOfNode(pkgs, entries, n)
    ensures |AllEdges(pkgs, entries)| + Unresolved(pkgs, entries) == StringHints(entries)
  {
    if entries != [] {
      var e := entries[|entries| - 1];
      var before := AllEdges(pkgs, entries[..|entries| - 1]);
      AllEdgesTargets(pkgs, entries[..|entries| - 1], n);
      HintEdgesTargets(pkgs, NodeOf(e), e.hints, n);
      TargetsFromAppend(before, HintEdges(pkgs, NodeOf(e), e.hints), n);
    }
  }

  lemma {:induction false} EdgeEndpoints(pkgs: seq<Package>, entries: seq<Entry>, pair: (NodeId, NodeId))
    requires pair in AllEdges(pkgs, entries)
    ensures exists e :: e in entries && NodeOf(e) == pair.0
    ensures exists p :: p in pkgs && p.node == pair.1
  {
    var (init, e) := (entries[..|entries| - 1], entries[|entries| - 1]);
    assert e in entries;
    if pair in HintEdges(pkgs, NodeOf(e), e.hints) {
      HintEdgesTargets(pkgs, NodeOf(e), e.hints, pair.0);
    } else {
      EdgeEndpoints(pkgs, init, pair);
      var e' :| e' in init && NodeOf(e') == pair.0;
      assert e' in entries;
    }
  }

  lemma {:induction false} NodesOfPackages(pkgs: seq<Package>)
    ensures forall n :: n in Nodes(pkgs) <==> exists p :: p in pkgs && p.node == n
    ensures forall n :: n in Nodes(pkgs) ==> Nodes(pkgs)[n] == []
  {
    if pkgs != [] {
      NodesOfPackages(pkgs[..|pkgs| - 1]);
      assert pkgs == pkgs[..|pkgs| - 1] + [pkgs[|pkgs| - 1]];
    }
  }

  /** When every entry has a name: the nodes are the packages' nodes, the edges of a
      node are the resolved hints of the entries with that node, in file order, and
      edges plus hints that fit nothing make up all string hints. */
  lemma CargoGraphMeaning(entries: seq<Entry>)
    requires forall e :: e in entries ==> e.name != ""
    ensures var (pkgs, graph) := (Packages(entries), CargoGraphOf(entries));
            && (forall n :: n in graph <==> exists e :: e in entries && NodeOf(e) == n)
            && (forall n :: OutEdges(graph, n) == HintsOfNode(pkgs, entries, n))
            && (forall n, t :: n in graph && t in graph[n] ==> t in graph)
            && EdgeTotal(graph) + Unresolved(pkgs, entries) == StringHints(entries)
  {
    var (pkgs, graph) := (Packages(entries), CargoGraphOf(entries));
    var pairs := AllEdges(pkgs, entries);
    NodesOfPackages(pkgs);
    forall n ensures n in graph <==> exists e :: e in entries && NodeOf(e) == n {
      GraphNodes(entries, n);
    }
    forall n ensures OutEdges(graph, n) == HintsOfNode(pkgs, entries, n) {
      PushedEdges(Nodes(pkgs), pairs, n);
      AllEdgesTargets(pkgs, entries, n);
    }
    forall n, t | n in graph && t in graph[n] ensures t in graph {
      PushedEdges(Nodes(pkgs), pairs, n);
      TargetIsEndpoint(pairs, n, t);
      EdgeEndpoints(pkgs, entries, (n, t));
      PushedEdges(Nodes(pkgs), pairs, t);
    }
    EdgeTotalOfPushed(Nodes(pkgs), pairs);
    EmptyTotal(Nodes(pkgs));
    AllEdgesTargets(pkgs, entries, Git("", ""));
  }

  lemma GraphNodes(entries: seq<Entry>, n: NodeId)
    requires forall e :: e in entries ==> e.name != ""
    ensures n in CargoGraphOf(entries) <==> exists e :: e in entries && NodeOf(e) == n
  {
    var pkgs := Packages(entries);
    NodesOfPackages(pkgs);
    PackagesAlign(entries);
    PushedEdges(Nodes(pkgs), AllEdges(pkgs, entries), n);
    if e :| e in entries && NodeOf(e) == n {
      var i :| 0 <= i < |entries| && entries[i] == e;
      assert pkgs[i] in pkgs && pkgs[i].node == n;
    }
    if p :| p in pkgs && p.node == n {
      var i :| 0 <= i < |pkgs| && pkgs[i] == p;
      assert entries[i] in entries && NodeOf(entries[i]) == n;
    }
    if exists pair :: pair in AllEdges(pkgs, entries) && pair.0 == n {
      SourcesAreNodes(pkgs, entries, n);
    }
  }

  lemma SourcesAreNodes(pkgs: seq<Package>, entries: seq<Entry>, n: NodeId)
    requires exists pair :: pair in AllEdges(pkgs, entries) && pair.0 == n
    ensures exists e :: e in entries && NodeOf(e) == n
  {
    var pair :| pair in AllEdges(pkgs, entries) && pair.0 == n;
    EdgeEndpoints(pkgs, entries, pair);
  }

  lemma {:induction false} TargetIsEndpoint(pairs: seq<(NodeId, NodeId)>, n: NodeId, t: NodeId)
    requires t in TargetsFrom(pairs, n)
    ensures (n, t) in pairs
  {
    var last := pairs[|pairs| - 1];
    if last != (n, t) {
      TargetIsEndpoint(pairs[..|pairs| - 1], n, t);
    }
  }

  lemma {:induction false} EmptyTotal(g: Adjacency)
    requires forall n :: n in g ==> g[n] == []
    ensures EdgeTotal(g) == 0
    decreases |g|
  {
    if g != map[] {
      var n :| n in g;
      EdgeTotalSplit(g, n);
      EmptyTotal(g - {n});
    }
  }
}
