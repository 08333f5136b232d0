/** What both npm lockfile readers build: a table from names to nodes, where the last
    versioned occurrence wins, and an edge for every requirement that resolves. */
module NpmGraph {
  import opened Graph
  import opened DependencyGraph

  /** One place where a package is listed; an absent version is empty. */
  datatype Occurrence = Occurrence(name: string, version: string, needs: seq<string>)

  type Names = map<string, NodeId>

  function NpmNode(name: string, version: string): NodeId {
    Registry(name, version, "npm")
  }

  /** The name table, updated in place by the first pass. */
  class NameTable {
    var nodes: Names

    constructor ()
      ensures nodes == map[]
    {
      nodes := map[];
    }

    method Record(o: Occurrence)
      modifies this
      ensures nodes == Recorded(old(nodes), [o])
    {
      assert [o][..0] == [];
      if o.version != "" {
        nodes := nodes[o.name := NpmNode(o.name, o.version)];
      }
    }
  }

  function Recorded(names: Names, occs: seq<Occurrence>): Names {
    if occs == [] then names
    else
      var before := Recorded(names, occs[..|occs| - 1]);
      var o := occs[|occs| - 1];
      if o.version != "" then before[o.name := NpmNode(o.name, o.version)] else before
  }

  lemma {:induction false} RecordedAppend(names: Names, a: seq<Occurrence>, b: seq<Occurrence>)
    ensures Recorded(names, a + b) == Recorded(Recorded(names, a), b)
  {
    if b == [] {
      assert a + b == a;
    } else {
      assert (a + b)[..|a + b| - 1] == a + b[..|b| - 1];
      RecordedAppend(names, a, b[..|b| - 1]);
    }
  }

  /** The last occurrence of a name that has a version. */
  predicate IsWinner(occs: seq<Occurrence>, n: string, i: nat) {
    && i < |occs| && occs[i].name == n && occs[i].version != ""
    && forall j :: i < j < |occs| ==> occs[j].name != n || occs[j].version == ""
  }

  lemma WinnerBefore(occs: seq<Occurrence>, n: string, i: nat)
    requires occs != [] && (occs[|occs| - 1].name != n || occs[|occs| - 1].version == "")
    ensures IsWinner(occs, n, i) <==> IsWinner(occs[..|occs| - 1], n, i)
  {
    var init := occs[..|occs| - 1];
    assert forall j :: 0 <= j < |init| ==> init[j] == occs[j];
  }

  /** One node per name, carrying the version of its last versioned occurrence. */
  lemma {:induction false} NamesHoldWinners(occs: seq<Occurrence>, n: string)
    ensures n in Recorded(map[], occs) <==> exists i: nat :: IsWinner(occs, n, i)
    ensures forall i: nat :: IsWinner(occs, n, i) ==>
              n in Recorded(map[], occs) && Recorded(map[], occs)[n] == NpmNode(n, occs[i].version)
  {
    if occs != [] {
      var last := |occs| - 1;
      NamesHoldWinners(occs[..last], n);
      if occs[last].name == n && occs[last].version != "" {
        assert IsWinner(occs, n, last);
      } else {
        forall i: nat ensures IsWinner(occs, n, i) <==> IsWinner(occs[..last], n, i) {
          WinnerBefore(occs, n, i);
        }
      }
    }
  }

  /** A name is resolved iff some occurrence of it has a version. */
  lemma {:induction false} NamedIffVersioned(occs: seq<Occurrence>, n: string)
    ensures n in Recorded(map[], occs) <==> exists o :: o in occs && o.name == n && o.version != ""
  {
    if occs != [] {
      NamedIffVersioned(occs[..|occs| - 1], n);
      assert occs == occs[..|occs| - 1] + [occs[|occs| - 1]];
    }
  }

  /** Names and nodes correspond one to one. */
  ghost predicate WellNamed(names: Names) {
    forall n :: n in names ==> names[n].Registry? && names[n].name == n && names[n].registry == "npm"
                               && names[n].version != ""
  }

  lemma {:induction false} RecordedIsWellNamed(names: Names, occs: seq<Occurrence>)
    requires WellNamed(names)
    ensures WellNamed(Recorded(names, occs))
  {
    if occs != [] {
      RecordedIsWellNamed(names, occs[..|occs| - 1]);
    }
  }

  // ------------------------------------------------------------------
  // Edges
  // ------------------------------------------------------------------

  /** The nodes of the required names that resolve, in order. */
  function Resolve(names: Names, required: seq<string>): seq<NodeId> {
    if required == [] then []
    else
      Resolve(names, required[..|required| - 1])
      + (if required[|required| - 1] in names then [names[required[|required| - 1]]] else [])
  }

  function PairsTo(from: NodeId, targets: seq<NodeId>): seq<(NodeId, NodeId)> {
    seq(|targets|, i requires 0 <= i < |targets| => (from, targets[i]))
  }

  /** The edges in the order they are pushed. */
  function EdgePairs(names: Names, occs: seq<Occurrence>): seq<(NodeId, NodeId)> {
    if occs == [] then []
    else
      var o := occs[|occs| - 1];
      EdgePairs(names, occs[..|occs| - 1])
      + (if o.name in names then PairsTo(names[o.name], Resolve(names, o.needs)) else [])
  }

  /** The graph: every resolved name a node, every resolvable requirement an edge. */
  function GraphOf(names: Names, occs: seq<Occurrence>): Adjacency {
    WithEdges(Isolated(names), EdgePairs(names, occs))
  }

  function Isolated(names: Names): Adjacency {
    map n | n in names.Values :: []
  }

  /** All requirements of all occurrences of one name that resolve, in order. */
  function RequirementsOf(names: Names, occs: seq<Occurrence>, n: string): seq<NodeId> {
    if occs == [] then []
    else
      var o := occs[|occs| - 1];
      RequirementsOf(names, occs[..|occs| - 1], n) + (if o.name == n then Resolve(names, o.needs) else [])
  }

  lemma {:induction false} TargetsOfPairs(from: NodeId, targets: seq<NodeId>, n: NodeId)
    ensures TargetsFrom(PairsTo(from, targets), n) == if n == from then targets else []
  {
    if targets != [] {
      var init := targets[..|targets| - 1];
      assert PairsTo(from, targets)[..|targets| - 1] == PairsTo(from, init);
      TargetsOfPairs(from, init, n);
      assert targets == init + [targets[|targets| - 1]];
    }
  }

  lemma {:induction false} TargetsOfName(names: Names, occs: seq<Occurrence>, n: string)
    requires WellNamed(names) && n in names
    ensures TargetsFrom(EdgePairs(names, occs), names[n]) == RequirementsOf(names, occs, n)
  {
    if occs != [] {
      var o := occs[|occs| - 1];
      var before := EdgePairs(names, occs[..|occs| - 1]);
      TargetsOfName(names, occs[..|occs| - 1], n);
      assert before + [] == before;
      if o.name in names {
        assert names[o.name] == names[n] ==> o.name == n;
        var pairs := PairsTo(names[o.name], Resolve(names, o.needs));
        TargetsFromAppend(before, pairs, names[n]);
        TargetsOfPairs(names[o.name], Resolve(names, o.needs), names[n]);
      }
    }
  }

  lemma {:induction false} ResolvedAreNodes(names: Names, required: seq<string>)
    ensures forall t :: t in Resolve(names, required) ==> t in names.Values
  {
    if required != [] {
      ResolvedAreNodes(names, required[..|required| - 1]);
    }
  }

  lemma {:induction false} EndpointsAreNodes(names: Names, occs: seq<Occurrence>)
    ensures forall e :: e in EdgePairs(names, occs) ==> e.0 in names.Values && e.1 in names.Values
  {
    if occs != [] {
      var o := occs[|occs| - 1];
      EndpointsAreNodes(names, occs[..|occs| - 1]);
      ResolvedAreNodes(names, o.needs);
      if o.name in names {
        var targets := Resolve(names, o.needs);
        assert forall i :: 0 <= i < |targets| ==> targets[i] in names.Values;
        assert forall e :: e in PairsTo(names[o.name], targets) ==> e.0 in names.Values && e.1 in names.Values;
      }
    }
  }

  /** The graph exactly: its nodes are the resolved names' nodes, and the edges of a
      name's node are the resolvable requirements of all its occurrences, in order. */
  lemma GraphMeaning(names: Names, occs: seq<Occurrence>)
    requires WellNamed(names)
    ensures GraphOf(names, occs).Keys == names.Values
    ensures forall n :: n in names ==> OutEdges(GraphOf(names, occs), names[n]) == RequirementsOf(names, occs, n)
  {
    EndpointsAreNodes(names, occs);
    forall m ensures m in GraphOf(names, occs) <==> m in names.Values {
      PushedEdges(Isolated(names), EdgePairs(names, occs), m);
    }
    forall n | n in names ensures OutEdges(GraphOf(names, occs), names[n]) == RequirementsOf(names, occs, n) {
      PushedEdges(Isolated(names), EdgePairs(names, occs), names[n]);
      TargetsOfName(names, occs, n);
    }
  }

  /** No edge leaves the node set. */
  lemma {:induction false} RequirementsAreNodes(names: Names, occs: seq<Occurrence>, n: string)
    ensures forall t :: t in RequirementsOf(names, occs, n) ==> t in names.Values
  {
    if occs != [] {
      RequirementsAreNodes(names, occs[..|occs| - 1], n);
      ResolvedAreNodes(names, occs[|occs| - 1].needs);
    }
  }

  // ------------------------------------------------------------------
  // The passes over a filled name table
  // ------------------------------------------------------------------

  /** Nodes first, in whatever order the table yields them. */
  method AddNodes(names: Names, graph: DependencyGraph)
    requires graph.edges == map[]
    modifies graph
    ensures graph.edges == Isolated(names)
  {
    var pending := names.Values;
    while pending != {}
      invariant pending <= names.Values
      invariant graph.edges == map n | n in names.Values - pending :: []
    {
      var n :| n in pending;
      graph.AddNode(n);
      pending := pending - {n};
    }
  }

  lemma PairsToPush(from: NodeId, targets: seq<NodeId>, t: NodeId)
    ensures PairsTo(from, targets + [t]) == PairsTo(from, targets) + [(from, t)]
  {
  }

  method PushRequirements(names: Names, o: Occurrence, graph: DependencyGraph)
    requires o.name in names
    modifies graph
    ensures graph.edges == WithEdges(old(graph.edges), PairsTo(names[o.name], Resolve(names, o.needs)))
  {
    var from := names[o.name];
    for i := 0 to |o.needs|
      invariant graph.edges == WithEdges(old(graph.edges), PairsTo(from, Resolve(names, o.needs[..i])))
    {
      var r := o.needs[i];
      assert o.needs[..i + 1][..i] == o.needs[..i];
      if r in names {
        ghost var before := Resolve(names, o.needs[..i]);
        assert Resolve(names, o.needs[..i + 1]) == before + [names[r]];
        PairsToPush(from, before, names[r]);
        WithEdgesAppend(old(graph.edges), PairsTo(from, before), [(from, names[r])]);
        assert [(from, names[r])][..0] == [];
        graph.PushEdge(from, names[r]);
      } else {
        assert Resolve(names, o.needs[..i]) + [] == Resolve(names, o.needs[..i]);
      }
    }
    assert o.needs[..|o.needs|] == o.needs;
  }
}
