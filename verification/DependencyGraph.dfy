/** The adjacency map the lockfile readers fill, and what a list of pushed edges
    leaves in it. */
module DependencyGraph {
  import opened Graph

  type Adjacency = map<NodeId, seq<NodeId>>

  function OutEdges(g: Adjacency, n: NodeId): seq<NodeId> {
    if n in g then g[n] else []
  }

  function WithNode(g: Adjacency, n: NodeId): Adjacency {
    g[n := OutEdges(g, n)]
  }

  function WithEdge(g: Adjacency, from: NodeId, to: NodeId): Adjacency {
    g[from := OutEdges(g, from) + [to]]
  }

  class DependencyGraph {
    var edges: Adjacency

    constructor ()
      ensures edges == map[]
    {
      edges := map[];
    }

    method AddNode(n: NodeId)
      modifies this
      ensures edges == WithNode(old(edges), n)
    {
      if n !in edges { edges := edges[n := []]; }
    }

    method PushEdge(from: NodeId, to: NodeId)
      modifies this
      ensures edges == WithEdge(old(edges), from, to)
    {
      AddNode(from);
      edges := edges[from := edges[from] + [to]];
    }

    /** Both endpoints of every pair become nodes. */
    method FillFromEdges(pairs: seq<(NodeId, NodeId)>)
      modifies this
      ensures edges == FromEdges(old(edges), pairs)
    {
      for i := 0 to |pairs|
        invariant edges == FromEdges(old(edges), pairs[..i])
      {
        assert pairs[..i + 1][..i] == pairs[..i];
        AddNode(pairs[i].1);
        PushEdge(pairs[i].0, pairs[i].1);
      }
      assert pairs[..|pairs|] == pairs;
    }

    method EdgesFrom(n: NodeId) returns (targets: seq<NodeId>)
      ensures targets == OutEdges(edges, n)
    {
      targets := if n in edges then edges[n] else [];
    }
  }

  function FromEdges(g: Adjacency, pairs: seq<(NodeId, NodeId)>): Adjacency {
    if pairs == [] then g
    else
      var last := pairs[|pairs| - 1];
      WithEdge(WithNode(FromEdges(g, pairs[..|pairs| - 1]), last.1), last.0, last.1)
  }

  /** Edges pushed onto a graph, without making their targets nodes. */
  function WithEdges(g: Adjacency, pairs: seq<(NodeId, NodeId)>): Adjacency {
    if pairs == [] then g
    else WithEdge(WithEdges(g, pairs[..|pairs| - 1]), pairs[|pairs| - 1].0, pairs[|pairs| - 1].1)
  }

  /** The targets of the pairs that start at a node, in order. */
  function TargetsFrom(pairs: seq<(NodeId, NodeId)>, n: NodeId): seq<NodeId> {
    if pairs == [] then []
    else
      TargetsFrom(pairs[..|pairs| - 1], n)
      + (if pairs[|pairs| - 1].0 == n then [pairs[|pairs| - 1].1] else [])
  }

  lemma {:induction false} TargetsFromAppend(a: seq<(NodeId, NodeId)>, b: seq<(NodeId, NodeId)>, n: NodeId)
    ensures TargetsFrom(a + b, n) == TargetsFrom(a, n) + TargetsFrom(b, n)
  {
    if b == [] {
      assert a + b == a;
    } else {
      assert (a + b)[..|a + b| - 1] == a + b[..|b| - 1];
      TargetsFromAppend(a, b[..|b| - 1], n);
    }
  }

  lemma {:induction false} WithEdgesAppend(g: Adjacency, a: seq<(NodeId, NodeId)>, b: seq<(NodeId, NodeId)>)
    ensures WithEdges(g, a + b) == WithEdges(WithEdges(g, a), b)
  {
    if b == [] {
      assert a + b == a;
    } else {
      assert (a + b)[..|a + b| - 1] == a + b[..|b| - 1];
      WithEdgesAppend(g, a, b[..|b| - 1]);
    }
  }

  lemma PushedEdge(g: Adjacency, from: NodeId, to: NodeId, n: NodeId)
    ensures OutEdges(WithEdge(g, from, to), n) == OutEdges(g, n) + if n == from then [to] else []
    ensures n in WithEdge(g, from, to) <==> n in g || n == from
  {
    assert OutEdges(g, n) + [] == OutEdges(g, n);
  }

  /** Pushing edges appends exactly their targets, in order, to their own sources. */
  lemma {:induction false} PushedEdges(g: Adjacency, pairs: seq<(NodeId, NodeId)>, n: NodeId)
    ensures OutEdges(WithEdges(g, pairs), n) == OutEdges(g, n) + TargetsFrom(pairs, n)
    ensures n in WithEdges(g, pairs) <==> n in g || exists e :: e in pairs && e.0 == n
  {
    if pairs != [] {
      var (init, last) := (pairs[..|pairs| - 1], pairs[|pairs| - 1]);
      PushedEdges(g, init, n);
      PushedEdge(WithEdges(g, init), last.0, last.1, n);
      assert forall e :: e in pairs <==> e in init || e == last by {
        assert pairs == init + [last];
      }
      var more := if n == last.0 then [last.1] else [];
      assert OutEdges(g, n) + (TargetsFrom(init, n) + more) == (OutEdges(g, n) + TargetsFrom(init, n)) + more;
    }
  }

  /** Building a graph from pairs keeps every pair, in order, cycles and duplicates
      included; its nodes are exactly the endpoints. */
  lemma {:induction false} FromEdgesMeaning(pairs: seq<(NodeId, NodeId)>, n: NodeId)
    ensures OutEdges(FromEdges(map[], pairs), n) == TargetsFrom(pairs, n)
    ensures n in FromEdges(map[], pairs) <==> exists e :: e in pairs && (e.0 == n || e.1 == n)
  {
    if pairs != [] {
      FromEdgesMeaning(pairs[..|pairs| - 1], n);
      assert pairs == pairs[..|pairs| - 1] + [pairs[|pairs| - 1]];
    }
  }

  /** The number of edges, multiplicities included. */
  ghost function EdgeTotal(g: Adjacency): nat
    decreases |g|
  {
    if g == map[] then 0
    else
      var n :| n in g;
      |g[n]| + EdgeTotal(g - {n})
  }

  lemma {:induction false} EdgeTotalSplit(g: Adjacency, n: NodeId)
    requires n in g
    ensures EdgeTotal(g) == |g[n]| + EdgeTotal(g - {n})
    decreases |g|
  {
    var m :| m in g && EdgeTotal(g) == |g[m]| + EdgeTotal(g - {m});
    if m != n {
      EdgeTotalSplit(g - {m}, n);
      EdgeTotalSplit(g - {n}, m);
      assert g - {m} - {n} == g - {n} - {m};
    }
  }

  lemma EdgeTotalPush(g: Adjacency, from: NodeId, to: NodeId)
    ensures EdgeTotal(WithEdge(g, from, to)) == EdgeTotal(g) + 1
  {
    var g1 := WithEdge(g, from, to);
    EdgeTotalSplit(g1, from);
    assert g1 - {from} == g - {from};
    if from in g {
      EdgeTotalSplit(g, from);
    } else {
      assert g - {from} == g;
    }
  }

  /** Conservation: every pushed edge is in the graph once. */
  lemma {:induction false} EdgeTotalOfPushed(g: Adjacency, pairs: seq<(NodeId, NodeId)>)
    ensures EdgeTotal(WithEdges(g, pairs)) == EdgeTotal(g) + |pairs|
  {
    if pairs != [] {
      EdgeTotalOfPushed(g, pairs[..|pairs| - 1]);
      EdgeTotalPush(WithEdges(g, pairs[..|pairs| - 1]), pairs[|pairs| - 1].0, pairs[|pairs| - 1].1);
    }
  }
}
