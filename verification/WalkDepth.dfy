/** How far the walk looks, judged from the graph alone: a condition under which it scans
    exactly the nodes within its depth, whatever the order of sibling edges, and what of
    a walk does not depend on verdicts at all. */
module WalkDepth {
  import opened Verdicts
  import opened Graph
  import opened TransitiveWalk

  // ------------------------------------------------------------------
  // The shape of a walk
  // ------------------------------------------------------------------

  /** The same depth, and the same edges wherever the walk can get. */
  ghost predicate SameEdges(p: Params, q: Params, root: NodeId) {
    p.maxDepth == q.maxDepth && forall n :: Reaches(p, root, n) ==> p.edges(n) == q.edges(n)
  }

  ghost predicate SameShape(w: Walk, v: Walk) {
    w.visited == v.visited && w.path == v.path && w.diags == v.diags
  }

  lemma {:induction false} VisitShape(p: Params, q: Params, root: NodeId, node: NodeId, depth: nat, w: Walk, v: Walk)
    requires SameEdges(p, q, root) && depth <= p.maxDepth && SameShape(w, v) && Reaches(p, root, node)
    ensures SameShape(Visit(p, node, depth, w).1, Visit(q, node, depth, v).1)
    decreases p.maxDepth - depth, 2, 0
  {
    var (w1, v1) := (Enter(p, node, depth, w), Enter(q, node, depth, v));
    if p.edges(node).Edges? {
      DescendAllShape(p, q, root, node, p.edges(node).children, depth, w1, v1);
    }
  }

  lemma {:induction false} DescendAllShape(
      p: Params, q: Params, root: NodeId, parent: NodeId, children: seq<NodeId>, depth: nat, w: Walk, v: Walk)
    requires SameEdges(p, q, root) && depth <= p.maxDepth && SameShape(w, v) && Reaches(p, root, parent)
    requires forall c :: c in children ==> Child(p, parent, c)
    ensures SameShape(DescendAll(p, parent, children, depth, w).1, DescendAll(q, parent, children, depth, v).1)
    decreases p.maxDepth - depth, 1, |children|
  {
    if children != [] {
      var (init, last) := (children[..|children| - 1], children[|children| - 1]);
      DescendAllShape(p, q, root, parent, init, depth, w, v);
      DescendShape(p, q, root, parent, last, depth,
                   DescendAll(p, parent, init, depth, w).1, DescendAll(q, parent, init, depth, v).1);
    }
  }

  lemma {:induction false} DescendShape(
      p: Params, q: Params, root: NodeId, parent: NodeId, child: NodeId, depth: nat, w: Walk, v: Walk)
    requires SameEdges(p, q, root) && depth <= p.maxDepth && SameShape(w, v) && Reaches(p, root, parent)
    requires Child(p, parent, child)
    ensures SameShape(Descend(p, parent, child, depth, w).1, Descend(q, parent, child, depth, v).1)
    decreases p.maxDepth - depth, 0, 0
  {
    if depth + 1 <= p.maxDepth && child !in w.path && child !in w.visited {
      StepReaches(p, root, parent, child);
      VisitShape(p, q, root, child, depth + 1, w, v);
    }
  }

  /** Which nodes are scanned and what is reported depends on the depth and the edges of
      reachable nodes only, never on a verdict. */
  lemma ShapeIgnoresVerdicts(p: Params, q: Params, root: NodeId)
    requires SameEdges(p, q, root)
    ensures SameShape(DfsWalk(p, root).1, DfsWalk(q, root).1)
  {
    assert Hops(p, root, root, 0);
    VisitShape(p, q, root, root, 0, EMPTY, EMPTY);
  }

  lemma {:induction false} SameHops(p: Params, q: Params, root: NodeId, n: NodeId, k: nat)
    requires SameEdges(p, q, root)
    ensures Hops(p, root, n, k) <==> Hops(q, root, n, k)
    decreases k
  {
    if k != 0 {
      if m :| Hops(p, root, m, k - 1) && Child(p, m, n) {
        assert Reaches(p, root, m);
        SameHops(p, q, root, m, k - 1);
        Step(q, root, m, n, k - 1);
      }
      if m :| Hops(q, root, m, k - 1) && Child(q, m, n) {
        SameHops(p, q, root, m, k - 1);
        assert Reaches(p, root, m);
        Step(p, root, m, n, k - 1);
      }
    }
  }

  lemma SameReaches(p: Params, q: Params, root: NodeId)
    requires SameEdges(p, q, root)
    ensures forall n :: Reaches(p, root, n) <==> Reaches(q, root, n)
  {
    forall n ensures Reaches(p, root, n) <==> Reaches(q, root, n) {
      if k: nat :| Hops(p, root, n, k) { SameHops(p, q, root, n, k); }
      if k: nat :| Hops(q, root, n, k) { SameHops(p, q, root, n, k); }
    }
  }

  // ------------------------------------------------------------------
  // Finished rows
  // ------------------------------------------------------------------

  /** An edge followed from a node scanned at this depth: to a scanned node within the
      limit, and to a reported cut at it. */
  predicate EdgeDone(p: Params, w: Walk, depth: nat, c: NodeId) {
    if depth < p.maxDepth then c in w.visited else DepthLimitReached(c, p.maxDepth + 1) in w.diags
  }

  ghost predicate RowDone(p: Params, w: Walk, r: Row) {
    p.edges(r.node).Edges? ==> forall c :: c in p.edges(r.node).children ==> EdgeDone(p, w, r.depth, c)
  }

  /** One row per node, and every row off the path is done. */
  ghost predicate Rows(p: Params, w: Walk) {
    && w.path <= w.visited
    && (forall i, j :: 0 <= i < j < |w.rows| ==> w.rows[i].node != w.rows[j].node)
    && (forall r :: r in w.rows ==> r.node in w.visited)
    && (forall r :: r in w.rows && r.node !in w.path ==> RowDone(p, w, r))
  }

  ghost predicate More(w: Walk, w': Walk) {
    Grows(w, w') && w.rows <= w'.rows
  }

  lemma RowStaysDone(p: Params, w: Walk, w': Walk, r: Row)
    requires RowDone(p, w, r) && w.visited <= w'.visited && w.diags <= w'.diags
    ensures RowDone(p, w', r)
  {
    if p.edges(r.node).Edges? {
      forall c | c in p.edges(r.node).children ensures EdgeDone(p, w', r.depth, c) {
        assert EdgeDone(p, w, r.depth, c);
      }
    }
  }

  lemma EnterRows(p: Params, node: NodeId, depth: nat, w: Walk)
    requires Rows(p, w) && node !in w.visited
    ensures Rows(p, Enter(p, node, depth, w))
  {
    var w1 := Enter(p, node, depth, w);
    forall r | r in w1.rows && r.node !in w1.path ensures RowDone(p, w1, r) {
      assert r in w.rows;
      RowStaysDone(p, w, w1, r);
    }
  }

  /** Two rows of one node are one row. */
  lemma OneRow(p: Params, w: Walk, r: Row, s: Row)
    requires Rows(p, w) && r in w.rows && s in w.rows && r.node == s.node
    ensures r == s
  {
    var i :| 0 <= i < |w.rows| && w.rows[i] == r;
    var j :| 0 <= j < |w.rows| && w.rows[j] == s;
    assert i == j;
  }

  lemma LeaveRows(p: Params, w: Walk, r: Row, v: Verdict)
    requires Rows(p, w) && r in w.rows && RowDone(p, w, r)
    ensures Rows(p, Leave(r.node, v, w))
  {
    var w' := Leave(r.node, v, w);
    forall s | s in w'.rows && s.node !in w'.path ensures RowDone(p, w', s) {
      if s.node == r.node {
        OneRow(p, w, r, s);
      }
      RowStaysDone(p, w, w', s);
    }
  }

  lemma {:induction false} VisitRows(p: Params, node: NodeId, depth: nat, w: Walk)
    requires depth <= p.maxDepth && Rows(p, w) && node !in w.visited
    ensures var w' := Visit(p, node, depth, w).1; Rows(p, w') && More(w, w') && node in w'.visited
    decreases p.maxDepth - depth, 2, 0
  {
    var w1 := Enter(p, node, depth, w);
    var row := Row(node, depth, p.scan(node));
    EnterRows(p, node, depth, w);
    assert w1.rows[|w.rows|] == row;
    var v := Visit(p, node, depth, w).0;
    if p.edges(node).Edges? {
      DescendAllRows(p, node, p.edges(node).children, depth, w1);
      LeaveRows(p, DescendAll(p, node, p.edges(node).children, depth, w1).1, row, v);
    } else {
      var w2 := w1.(diags := w1.diags + [Unresolved(node, p.edges(node).name, p.edges(node).range)]);
      forall r | r in w2.rows && r.node !in w2.path ensures RowDone(p, w2, r) {
        RowStaysDone(p, w1, w2, r);
      }
      LeaveRows(p, w2, row, v);
    }
  }

  lemma {:induction false} DescendAllRows(p: Params, parent: NodeId, children: seq<NodeId>, depth: nat, w: Walk)
    requires depth <= p.maxDepth && Rows(p, w)
    ensures var w' := DescendAll(p, parent, children, depth, w).1;
            Rows(p, w') && More(w, w') && forall c :: c in children ==> EdgeDone(p, w', depth, c)
    decreases p.maxDepth - depth, 1, |children|
  {
    if children != [] {
      var (init, last) := (children[..|children| - 1], children[|children| - 1]);
      var w1 := DescendAll(p, parent, init, depth, w).1;
      DescendAllRows(p, parent, init, depth, w);
      DescendRows(p, parent, last, depth, w1);
      var w2 := Descend(p, parent, last, depth, w1).1;
      forall c | c in children ensures EdgeDone(p, w2, depth, c) {
        assert c in init || c == last;
        assert c in init ==> EdgeDone(p, w1, depth, c);
      }
    }
  }

  lemma {:induction false} DescendRows(p: Params, parent: NodeId, child: NodeId, depth: nat, w: Walk)
    requires depth <= p.maxDepth && Rows(p, w)
    ensures var w' := Descend(p, parent, child, depth, w).1;
            Rows(p, w') && More(w, w') && EdgeDone(p, w', depth, child)
    decreases p.maxDepth - depth, 0, 0
  {
    var w' := Descend(p, parent, child, depth, w).1;
    if depth + 1 <= p.maxDepth && child !in w.path && child !in w.visited {
      VisitRows(p, child, depth + 1, w);
    } else {
      RowsStayDone(p, w, w');
    }
  }

  lemma RowsStayDone(p: Params, w: Walk, w': Walk)
    requires Rows(p, w) && More(w, w') && w'.rows == w.rows && w'.path == w.path && w'.visited == w.visited
    ensures Rows(p, w')
  {
    forall r | r in w'.rows && r.node !in w'.path ensures RowDone(p, w', r) {
      RowStaysDone(p, w, w', r);
    }
  }

  // ------------------------------------------------------------------
  // No shorter way to the limit
  // ------------------------------------------------------------------

  /** No node with a path of exactly `maxDepth` edges has a shorter one. */
  ghost predicate NoShorterWay(p: Params, root: NodeId) {
    forall n, k: nat :: Hops(p, root, n, p.maxDepth) && Hops(p, root, n, k) ==> p.maxDepth <= k
  }

  ghost predicate Within(p: Params, root: NodeId, n: NodeId) {
    exists k: nat :: k <= p.maxDepth && Hops(p, root, n, k)
  }

  ghost predicate JustBeyond(p: Params, root: NodeId, n: NodeId) {
    Hops(p, root, n, p.maxDepth + 1)
  }

  /** A scanned node's own row: where it was met, and that it is done. */
  lemma RowOfVisited(p: Params, root: NodeId, n: NodeId) returns (r: Row)
    requires n in DfsWalk(p, root).1.visited
    ensures r in DfsWalk(p, root).1.rows && r.node == n
    ensures RowSound(p, root, r) && RowDone(p, DfsWalk(p, root).1, r)
  {
    WalkSound(p, root);
    VisitRows(p, root, 0, EMPTY);
    r :| r in DfsWalk(p, root).1.rows && r.node == n;
  }

  lemma {:induction false} WithinDepthIsScanned(p: Params, root: NodeId, n: NodeId, k: nat)
    requires NoShorterWay(p, root) && k <= p.maxDepth && Hops(p, root, n, k)
    ensures n in DfsWalk(p, root).1.visited
    decreases k
  {
    if k == 0 {
      WalkSound(p, root);
    } else {
      var m :| Hops(p, root, m, k - 1) && Child(p, m, n);
      WithinDepthIsScanned(p, root, m, k - 1);
      var r := RowOfVisited(p, root, m);
      assert EdgeDone(p, DfsWalk(p, root).1, r.depth, n);
    }
  }

  /** A test on the graph: if no node at exactly the limit has a shorter path, the walk is
      complete within its depth. Layered graphs pass it, and so do graphs with cycles and
      diamonds that close before the limit. */
  lemma NoShorterWayIsComplete(p: Params, root: NodeId)
    requires NoShorterWay(p, root)
    ensures CompleteWithinDepth(p, root)
  {
    forall n, k: nat | k <= p.maxDepth && Hops(p, root, n, k) ensures n in DfsWalk(p, root).1.visited {
      WithinDepthIsScanned(p, root, n, k);
    }
  }

  /** Under it the walk is known in closed form: it scans exactly the nodes within the
      depth, and cuts exactly those one edge beyond it. */
  lemma NoShorterWayIsExact(p: Params, root: NodeId)
    requires NoShorterWay(p, root)
    ensures forall n :: n in DfsWalk(p, root).1.visited <==> Within(p, root, n)
    ensures forall n :: Cut(DfsWalk(p, root).1, n) <==> JustBeyond(p, root, n)
  {
    var w := DfsWalk(p, root).1;
    WalkSound(p, root);
    forall n ensures n in w.visited <==> Within(p, root, n) {
      if n in w.visited {
        var r := RowOfVisited(p, root, n);
        assert Hops(p, root, n, r.depth);
      }
      if k: nat :| k <= p.maxDepth && Hops(p, root, n, k) {
        WithinDepthIsScanned(p, root, n, k);
      }
    }
    forall n ensures Cut(w, n) <==> JustBeyond(p, root, n) {
      if depth: nat :| DepthLimitReached(n, depth) in w.diags {
        assert DiagSound(p, root, DepthLimitReached(n, depth));
      }
      if JustBeyond(p, root, n) {
        BeyondIsCut(p, root, n);
      }
    }
  }

  lemma BeyondIsCut(p: Params, root: NodeId, n: NodeId)
    requires NoShorterWay(p, root) && JustBeyond(p, root, n)
    ensures Cut(DfsWalk(p, root).1, n)
  {
    var m :| Hops(p, root, m, p.maxDepth) && Child(p, m, n);
    WithinDepthIsScanned(p, root, m, p.maxDepth);
    var r := RowOfVisited(p, root, m);
    assert p.maxDepth <= r.depth;
    assert EdgeDone(p, DfsWalk(p, root).1, r.depth, n);
  }

  /** The verdict in closed form: pass iff everything within the depth is clean and nothing
      lies beyond it, block iff something within it blocks, or something lies beyond it
      and that blocks. */
  lemma NoShorterWayVerdict(p: Params, root: NodeId)
    requires NoShorterWay(p, root)
    ensures DfsWalk(p, root).0 == Pass <==>
              (forall n :: Within(p, root, n) ==> Clean(p, n)) && forall n :: !JustBeyond(p, root, n)
    ensures DfsWalk(p, root).0 == Block <==>
              (exists n :: Within(p, root, n) && p.scan(n) == Block)
              || (p.onDepthLimit.FloorBlock? && exists n :: JustBeyond(p, root, n))
  {
    VerdictMeaning(p, root);
    NoShorterWayIsExact(p, root);
    NoCutMeaning(DfsWalk(p, root).1);
  }

  lemma NoCutMeaning(w: Walk)
    ensures NoCut(w) <==> forall n :: !Cut(w, n)
  {
    if !NoCut(w) {
      var d :| d in w.diags && d.DepthLimitReached?;
      assert DepthLimitReached(d.node, d.depth) in w.diags;
      assert Cut(w, d.node);
    }
  }

  // ------------------------------------------------------------------
  // Sibling order
  // ------------------------------------------------------------------

  /** The same graph, scans and limits, with sibling edges perhaps in another order. */
  ghost predicate Reordered(p: Params, q: Params) {
    && p.scan == q.scan && p.maxDepth == q.maxDepth && p.onDepthLimit == q.onDepthLimit
    && forall n :: p.edges(n).Edges? == q.edges(n).Edges? && forall c :: Child(p, n, c) <==> Child(q, n, c)
  }

  lemma {:induction false} HopsAgree(p: Params, q: Params, from: NodeId, n: NodeId, k: nat)
    requires forall m, c :: Child(p, m, c) <==> Child(q, m, c)
    ensures Hops(p, from, n, k) <==> Hops(q, from, n, k)
    decreases k
  {
    if k != 0 {
      var j := k - 1;
      forall m ensures Hops(p, from, m, j) <==> Hops(q, from, m, j) {
        HopsAgree(p, q, from, m, j);
      }
    }
  }

  /** Under the condition the order of siblings decides nothing: not what is scanned, not
      what is cut, and not the verdict. */
  lemma SiblingOrderIsIrrelevant(p: Params, q: Params, root: NodeId)
    requires Reordered(p, q) && NoShorterWay(p, root)
    ensures DfsWalk(p, root).0 == DfsWalk(q, root).0
    ensures DfsWalk(p, root).1.visited == DfsWalk(q, root).1.visited
    ensures forall n :: Cut(DfsWalk(p, root).1, n) <==> Cut(DfsWalk(q, root).1, n)
  {
    forall n, k: nat ensures Hops(p, root, n, k) <==> Hops(q, root, n, k) {
      HopsAgree(p, q, root, n, k);
    }
    assert NoShorterWay(q, root);
    NoShorterWayIsExact(p, root);
    NoShorterWayIsExact(q, root);
    SameVerdict(p, q, root);
  }

  lemma SameVerdict(p: Params, q: Params, root: NodeId)
    requires Reordered(p, q) && DfsWalk(p, root).1.visited == DfsWalk(q, root).1.visited
    requires forall n :: Cut(DfsWalk(p, root).1, n) <==> Cut(DfsWalk(q, root).1, n)
    ensures DfsWalk(p, root).0 == DfsWalk(q, root).0
  {
    VerdictMeaning(p, root);
    VerdictMeaning(q, root);
    NoCutMeaning(DfsWalk(p, root).1);
    NoCutMeaning(DfsWalk(q, root).1);
    assert forall n :: Clean(p, n) <==> Clean(q, n);
  }
}
