/** The depth-limited, cycle-aware, memoising DFS over the dependency graph.

    `WalkState` keeps the source's mutable form. `Visit`, `DescendAll` and
    `Descend` describe one step of it on values, so that facts about whole walks
    can be stated as lemmas. */
module TransitiveWalk {
  import opened Verdicts
  import opened Graph

  datatype EdgeResult = Edges(children: seq<NodeId>) | UnresolvedRange(name: string, range: string)

  datatype OnDepthLimit = FloorWarn | FloorBlock {
    function Floor(): Verdict { if FloorWarn? then Warn else Block }
  }

  datatype Diagnostic =
    | DepthLimitReached(node: NodeId, depth: nat)
    | CycleDetected(from: NodeId, to: NodeId)
    | Unresolved(from: NodeId, name: string, range: string)

  /** A scanned node, the depth it was first reached at, and its own verdict. */
  datatype Row = Row(node: NodeId, depth: nat, verdict: Verdict)

  /** The edge provider, the node scanner and the depth policy of one walk. */
  datatype Params = Params(
    edges: NodeId -> EdgeResult,
    scan: NodeId -> Verdict,
    maxDepth: nat,
    onDepthLimit: OnDepthLimit)

  datatype Walk = Walk(
    visited: set<NodeId>,
    path: set<NodeId>,
    diags: seq<Diagnostic>,
    verdicts: map<NodeId, Verdict>,
    rows: seq<Row>)

  const EMPTY := Walk({}, {}, [], map[], [])

  // ------------------------------------------------------------------
  // The walk on values
  // ------------------------------------------------------------------

  /** The state right after `node` has been scanned and before its edges are read. */
  function Enter(p: Params, node: NodeId, depth: nat, w: Walk): Walk {
    Walk(w.visited + {node}, w.path + {node}, w.diags, w.verdicts[node := p.scan(node)],
         w.rows + [Row(node, depth, p.scan(node))])
  }

  function Leave(node: NodeId, v: Verdict, w: Walk): Walk {
    w.(path := w.path - {node}, verdicts := w.verdicts[node := v])
  }

  function Visit(p: Params, node: NodeId, depth: nat, w: Walk): (Verdict, Walk)
    requires depth <= p.maxDepth
    decreases p.maxDepth - depth, 2, 0
  {
    var w1 := Enter(p, node, depth, w);
    var (cs, w2) := match p.edges(node)
      case Edges(children) => DescendAll(p, node, children, depth, w1)
      case UnresolvedRange(name, range) => ([Warn], w1.(diags := w1.diags + [Unresolved(node, name, range)]));
    var v := CombineVerdicts([p.scan(node)] + cs);
    (v, Leave(node, v, w2))
  }

  /** The contributions of the children in order. */
  function DescendAll(p: Params, parent: NodeId, children: seq<NodeId>, depth: nat, w: Walk): (seq<Verdict>, Walk)
    requires depth <= p.maxDepth
    decreases p.maxDepth - depth, 1, |children|
  {
    if children == [] then ([], w)
    else
      var last := |children| - 1;
      var (cs, w1) := DescendAll(p, parent, children[..last], depth, w);
      var (c, w2) := Descend(p, parent, children[last], depth, w1);
      (cs + [c], w2)
  }

  function Descend(p: Params, parent: NodeId, child: NodeId, depth: nat, w: Walk): (Verdict, Walk)
    requires depth <= p.maxDepth
    decreases p.maxDepth - depth, 0, 0
  {
    if depth + 1 > p.maxDepth then
      (p.onDepthLimit.Floor(), w.(diags := w.diags + [DepthLimitReached(child, depth + 1)]))
    else if child in w.path then
      (Recorded(child, w), w.(diags := w.diags + [CycleDetected(parent, child)]))
    else if child in w.visited then
      (Recorded(child, w), w)
    else
      Visit(p, child, depth + 1, w)
  }

  function Recorded(n: NodeId, w: Walk): Verdict {
    if n in w.verdicts then w.verdicts[n] else Pass
  }

  function DfsWalk(p: Params, root: NodeId): (Verdict, Walk) {
    Visit(p, root, 0, EMPTY)
  }

  // ------------------------------------------------------------------
  // The walk as the source runs it
  // ------------------------------------------------------------------

  class WalkState {
    const p: Params
    var visited: set<NodeId>
    var path: set<NodeId>
    var diagnostics: seq<Diagnostic>
    var verdicts: map<NodeId, Verdict>
    var nodeVerdicts: seq<Row>

    constructor (p: Params)
      ensures this.p == p && State() == EMPTY
    {
      this.p := p;
      visited, path, diagnostics, verdicts, nodeVerdicts := {}, {}, [], map[], [];
    }

    function State(): Walk
      reads this
    {
      Walk(visited, path, diagnostics, verdicts, nodeVerdicts)
    }

    method VisitNode(node: NodeId, depth: nat) returns (verdict: Verdict)
      requires depth <= p.maxDepth
      modifies this
      ensures (verdict, State()) == Visit(p, node, depth, old(State()))
      decreases p.maxDepth - depth, 1
    {
      var own := p.scan(node);
      visited := visited + {node};
      verdicts := verdicts[node := own];
      path := path + {node};
      nodeVerdicts := nodeVerdicts + [Row(node, depth, own)];
      var contributions := [own];
      ghost var w1 := State();
      match p.edges(node) {
        case Edges(children) =>
          ghost var cs: seq<Verdict> := [];
          for i := 0 to |children|
            invariant contributions == [own] + cs
            invariant (cs, State()) == DescendAll(p, node, children[..i], depth, w1)
          {
            assert children[..i + 1][..i] == children[..i];
            var c := DescendInto(node, children[i], depth);
            contributions := contributions + [c];
            cs := cs + [c];
          }
          assert children[..|children|] == children;
        case UnresolvedRange(name, range) =>
          diagnostics := diagnostics + [Unresolved(node, name, range)];
          contributions := contributions + [Warn];
      }
      verdict := CombineVerdicts(contributions);
      path := path - {node};
      verdicts := verdicts[node := verdict];
    }

    method DescendInto(parent: NodeId, child: NodeId, parentDepth: nat) returns (verdict: Verdict)
      requires parentDepth <= p.maxDepth
      modifies this
      ensures (verdict, State()) == Descend(p, parent, child, parentDepth, old(State()))
      decreases p.maxDepth - parentDepth, 0
    {
      var childDepth := parentDepth + 1;
      if childDepth > p.maxDepth {
        diagnostics := diagnostics + [DepthLimitReached(child, childDepth)];
        return p.onDepthLimit.Floor();
      }
      if child in path {
        diagnostics := diagnostics + [CycleDetected(parent, child)];
        return if child in verdicts then verdicts[child] else Pass;
      }
      if child in visited {
        return if child in verdicts then verdicts[child] else Pass;
      }
      verdict := VisitNode(child, childDepth);
    }
  }

  method WalkFrom(p: Params, root: NodeId) returns (verdict: Verdict, diagnostics: seq<Diagnostic>, rows: seq<Row>)
    ensures (verdict, diagnostics, rows) == (DfsWalk(p, root).0, DfsWalk(p, root).1.diags, DfsWalk(p, root).1.rows)
  {
    var state := new WalkState(p);
    verdict := state.VisitNode(root, 0);
    diagnostics, rows := state.diagnostics, state.nodeVerdicts;
  }

  // ------------------------------------------------------------------
  // The rolled-up verdict
  // ------------------------------------------------------------------

  function DiagFloor(p: Params, d: Diagnostic): Verdict {
    match d
    case DepthLimitReached(_, _) => p.onDepthLimit.Floor()
    case CycleDetected(_, _) => Pass
    case Unresolved(_, _, _) => Warn
  }

  function WorstRow(rows: seq<Row>): Verdict {
    if rows == [] then Pass else Worse(WorstRow(rows[..|rows| - 1]), rows[|rows| - 1].verdict)
  }

  function WorstDiag(p: Params, ds: seq<Diagnostic>): Verdict {
    if ds == [] then Pass else Worse(WorstDiag(p, ds[..|ds| - 1]), DiagFloor(p, ds[|ds| - 1]))
  }

  /** The worst thing a walk has recorded so far: a node's own verdict or the
      floor a diagnostic imposes. */
  function Ceiling(p: Params, w: Walk): Verdict {
    Worse(WorstRow(w.rows), WorstDiag(p, w.diags))
  }

  /** No memoised verdict exceeds what has been recorded. */
  ghost predicate Memo(p: Params, w: Walk) {
    && w.visited == w.verdicts.Keys
    && forall n :: n in w.verdicts ==> w.verdicts[n].Rank() <= Ceiling(p, w).Rank()
  }

  lemma WorstRowAppend(rows: seq<Row>, r: Row)
    ensures WorstRow(rows + [r]) == Worse(WorstRow(rows), r.verdict)
  {
    assert (rows + [r])[..|rows|] == rows;
  }

  lemma WorstDiagAppend(p: Params, ds: seq<Diagnostic>, d: Diagnostic)
    ensures WorstDiag(p, ds + [d]) == Worse(WorstDiag(p, ds), DiagFloor(p, d))
  {
    assert (ds + [d])[..|ds|] == ds;
  }

  lemma WorseRegroups(a: Verdict, b: Verdict, c: Verdict)
    ensures Worse(Worse(a, c), b) == Worse(Worse(a, b), c) == Worse(a, Worse(b, c))
  {
  }

  lemma CeilingAppend(p: Params, w: Walk, r: Row, d: Diagnostic)
    ensures Ceiling(p, w.(rows := w.rows + [r])) == Worse(Ceiling(p, w), r.verdict)
    ensures Ceiling(p, w.(diags := w.diags + [d])) == Worse(Ceiling(p, w), DiagFloor(p, d))
  {
    WorstRowAppend(w.rows, r);
    WorstDiagAppend(p, w.diags, d);
    WorseRegroups(WorstRow(w.rows), WorstDiag(p, w.diags), r.verdict);
    WorseRegroups(WorstRow(w.rows), WorstDiag(p, w.diags), DiagFloor(p, d));
  }

  lemma WorstAppend(vs: seq<Verdict>, v: Verdict)
    ensures Worst(vs + [v]) == Worse(Worst(vs), v)
  {
    assert (vs + [v])[..|vs|] == vs;
  }

  lemma {:induction false} WorstPrepend(v: Verdict, vs: seq<Verdict>)
    ensures Worst([v] + vs) == Worse(v, Worst(vs))
  {
    if vs == [] {
      assert [v] + vs == [] + [v];
      WorstAppend([], v);
    } else {
      var l := |vs| - 1;
      WorstPrepend(v, vs[..l]);
      assert [v] + vs == ([v] + vs[..l]) + [vs[l]];
      WorstAppend([v] + vs[..l], vs[l]);
    }
  }

  lemma CombineOwn(own: Verdict, cs: seq<Verdict>)
    ensures CombineVerdicts([own] + cs) == Worse(own, Worst(cs))
  {
    CombineIsWorst([own] + cs);
    WorstPrepend(own, cs);
  }

  lemma EnterVerdict(p: Params, node: NodeId, depth: nat, w: Walk)
    requires Memo(p, w)
    ensures Memo(p, Enter(p, node, depth, w))
    ensures Ceiling(p, Enter(p, node, depth, w)) == Worse(Ceiling(p, w), p.scan(node))
  {
    CeilingAppend(p, w, Row(node, depth, p.scan(node)), CycleDetected(node, node));
  }

  lemma LeaveVerdict(p: Params, node: NodeId, v: Verdict, w: Walk)
    requires Memo(p, w) && node in w.visited && v.Rank() <= Ceiling(p, w).Rank()
    ensures Memo(p, Leave(node, v, w)) && Ceiling(p, Leave(node, v, w)) == Ceiling(p, w)
  {
  }

  /** Rolling up after the children: `w1` and `w2` are the states before and after. */
  lemma RollUp(p: Params, node: NodeId, cs: seq<Verdict>, w: Walk, w1: Walk, w2: Walk)
    requires Ceiling(p, w1) == Worse(Ceiling(p, w), p.scan(node)) && node in w2.visited
    requires Memo(p, w2) && Ceiling(p, w2) == Worse(Ceiling(p, w1), Worst(cs))
    ensures var v := CombineVerdicts([p.scan(node)] + cs);
            Memo(p, Leave(node, v, w2)) && Ceiling(p, Leave(node, v, w2)) == Worse(Ceiling(p, w), v)
  {
    CombineOwn(p.scan(node), cs);
    LeaveVerdict(p, node, Worse(p.scan(node), Worst(cs)), w2);
  }

  lemma UnresolvedVerdict(p: Params, node: NodeId, name: string, range: string, w: Walk)
    requires Memo(p, w)
    ensures var w' := w.(diags := w.diags + [Unresolved(node, name, range)]);
            Memo(p, w') && Ceiling(p, w') == Worse(Ceiling(p, w), Worst([Warn]))
  {
    CeilingAppend(p, w, Row(node, 0, Pass), Unresolved(node, name, range));
    WorstAppend([], Warn);
    assert [] + [Warn] == [Warn];
  }

  lemma {:induction false} VisitVerdict(p: Params, node: NodeId, depth: nat, w: Walk)
    requires depth <= p.maxDepth && Memo(p, w)
    ensures var (v, w') := Visit(p, node, depth, w);
            Memo(p, w') && Ceiling(p, w') == Worse(Ceiling(p, w), v)
            && w.visited + {node} <= w'.visited
    decreases p.maxDepth - depth, 2, 0
  {
    EnterVerdict(p, node, depth, w);
    var w1 := Enter(p, node, depth, w);
    match p.edges(node) {
      case Edges(children) =>
        DescendAllVerdict(p, node, children, depth, w1);
        var (cs, w2) := DescendAll(p, node, children, depth, w1);
        RollUp(p, node, cs, w, w1, w2);
      case UnresolvedRange(name, range) =>
        UnresolvedVerdict(p, node, name, range, w1);
        RollUp(p, node, [Warn], w, w1, w1.(diags := w1.diags + [Unresolved(node, name, range)]));
    }
  }

  lemma {:induction false} DescendAllVerdict(p: Params, parent: NodeId, children: seq<NodeId>, depth: nat, w: Walk)
    requires depth <= p.maxDepth && Memo(p, w)
    ensures var (cs, w') := DescendAll(p, parent, children, depth, w);
            Memo(p, w') && Ceiling(p, w') == Worse(Ceiling(p, w), Worst(cs)) && w.visited <= w'.visited
    decreases p.maxDepth - depth, 1, |children|
  {
    if children != [] {
      var last := |children| - 1;
      DescendAllVerdict(p, parent, children[..last], depth, w);
      var (cs, w1) := DescendAll(p, parent, children[..last], depth, w);
      DescendVerdict(p, parent, children[last], depth, w1);
      WorstAppend(cs, Descend(p, parent, children[last], depth, w1).0);
    }
  }

  lemma {:induction false} DescendVerdict(p: Params, parent: NodeId, child: NodeId, depth: nat, w: Walk)
    requires depth <= p.maxDepth && Memo(p, w)
    ensures var (v, w') := Descend(p, parent, child, depth, w);
            Memo(p, w') && Ceiling(p, w') == Worse(Ceiling(p, w), v) && w.visited <= w'.visited
    decreases p.maxDepth - depth, 0, 0
  {
    var r := Row(child, depth, Pass);
    CeilingAppend(p, w, r, DepthLimitReached(child, depth + 1));
    CeilingAppend(p, w, r, CycleDetected(parent, child));
    if depth + 1 <= p.maxDepth && child !in w.path && child !in w.visited {
      VisitVerdict(p, child, depth + 1, w);
    }
  }

  /** The verdict of a walk is exactly the worst of every scanned node's own
      verdict and every fail-closed floor it recorded: memoised re-visits and cut
      back-edges lose nothing and invent nothing. */
  lemma WalkVerdictIsWorst(p: Params, root: NodeId)
    ensures var (v, w) := DfsWalk(p, root); v == Ceiling(p, w)
  {
    VisitVerdict(p, root, 0, EMPTY);
  }

  // ------------------------------------------------------------------
  // What a walk reaches
  // ------------------------------------------------------------------

  ghost predicate Child(p: Params, m: NodeId, n: NodeId) {
    p.edges(m).Edges? && n in p.edges(m).children
  }

  /** `n` is exactly `k` edges away from `from` along some path. */
  ghost predicate Hops(p: Params, from: NodeId, n: NodeId, k: nat)
    decreases k
  {
    if k == 0 then n == from else exists m :: Hops(p, from, m, k - 1) && Child(p, m, n)
  }

  ghost predicate Reaches(p: Params, from: NodeId, n: NodeId) {
    exists k: nat :: Hops(p, from, n, k)
  }

  lemma Step(p: Params, from: NodeId, m: NodeId, n: NodeId, k: nat)
    requires Hops(p, from, m, k) && Child(p, m, n)
    ensures Hops(p, from, n, k + 1)
  {
  }

  lemma StepReaches(p: Params, from: NodeId, m: NodeId, n: NodeId)
    requires Reaches(p, from, m) && Child(p, m, n)
    ensures Reaches(p, from, n)
  {
    var k: nat :| Hops(p, from, m, k);
    Step(p, from, m, n, k);
  }

  /** What each diagnostic claims about the graph. */
  ghost predicate DiagSound(p: Params, root: NodeId, d: Diagnostic) {
    match d
    case DepthLimitReached(n, depth) => depth == p.maxDepth + 1 && Hops(p, root, n, depth)
    case CycleDetected(a, b) => Reaches(p, root, a) && Child(p, a, b) && Reaches(p, b, a)
    case Unresolved(a, name, range) => Reaches(p, root, a) && p.edges(a) == UnresolvedRange(name, range)
  }

  ghost predicate RowSound(p: Params, root: NodeId, r: Row) {
    r.verdict == p.scan(r.node) && r.depth <= p.maxDepth && Hops(p, root, r.node, r.depth)
  }

  /** The rows list every visited node once, truthfully. */
  ghost predicate Sound(p: Params, root: NodeId, w: Walk) {
    && w.path <= w.visited
    && (forall i, j :: 0 <= i < j < |w.rows| ==> w.rows[i].node != w.rows[j].node)
    && (forall r :: r in w.rows ==> RowSound(p, root, r) && r.node in w.visited)
    && (forall n :: n in w.visited ==> exists r :: r in w.rows && r.node == n)
    && (forall d :: d in w.diags ==> DiagSound(p, root, d))
  }

  ghost predicate PathReaches(p: Params, path: set<NodeId>, n: NodeId) {
    forall m :: m in path ==> Reaches(p, m, n)
  }

  /** Visited, or reported as cut at the depth limit. */
  predicate Followed(p: Params, w: Walk, c: NodeId) {
    c in w.visited || DepthLimitReached(c, p.maxDepth + 1) in w.diags
  }

  /** Every outgoing edge of `n` has been followed, cut, or reported. */
  ghost predicate Covered(p: Params, w: Walk, n: NodeId) {
    match p.edges(n)
    case Edges(children) => forall c :: c in children ==> Followed(p, w, c)
    case UnresolvedRange(name, range) => Unresolved(n, name, range) in w.diags
  }

  ghost predicate Closed(p: Params, w: Walk) {
    forall n :: n in w.visited && n !in w.path ==> Covered(p, w, n)
  }

  /** `w'` has the same active path and only adds to `w`. */
  ghost predicate Grows(w: Walk, w': Walk) {
    w'.path == w.path && w.visited <= w'.visited && w.diags <= w'.diags
  }

  lemma EnterSound(p: Params, root: NodeId, node: NodeId, depth: nat, w: Walk)
    requires Sound(p, root, w) && node !in w.visited && depth <= p.maxDepth && Hops(p, root, node, depth)
    ensures Sound(p, root, Enter(p, node, depth, w))
  {
    var w1 := Enter(p, node, depth, w);
    forall n | n in w1.visited ensures exists r :: r in w1.rows && r.node == n {
      if n == node {
        assert w1.rows[|w.rows|].node == n;
      } else {
        var r :| r in w.rows && r.node == n;
        assert r in w1.rows;
      }
    }
  }

  lemma EnterReaches(p: Params, node: NodeId, depth: nat, w: Walk)
    requires PathReaches(p, w.path, node) && Closed(p, w)
    ensures PathReaches(p, Enter(p, node, depth, w).path, node)
    ensures Closed(p, Enter(p, node, depth, w))
  {
    assert Hops(p, node, node, 0);
    var w1 := Enter(p, node, depth, w);
    forall n | n in w1.visited && n !in w1.path ensures Covered(p, w1, n) {
      assert Covered(p, w, n);
    }
  }

  lemma LeaveSound(p: Params, root: NodeId, node: NodeId, v: Verdict, w: Walk)
    requires Sound(p, root, w) && Closed(p, w) && Covered(p, w, node)
    ensures Sound(p, root, Leave(node, v, w)) && Closed(p, Leave(node, v, w))
  {
    var w' := Leave(node, v, w);
    forall n | n in w'.visited && n !in w'.path ensures Covered(p, w', n) {
      assert Covered(p, w, n);
    }
  }

  lemma UnresolvedSound(p: Params, root: NodeId, node: NodeId, w: Walk)
    requires Sound(p, root, w) && Closed(p, w) && Reaches(p, root, node) && p.edges(node).UnresolvedRange?
    ensures var w' := w.(diags := w.diags + [Unresolved(node, p.edges(node).name, p.edges(node).range)]);
            Sound(p, root, w') && Closed(p, w') && Covered(p, w', node)
  {
    var w' := w.(diags := w.diags + [Unresolved(node, p.edges(node).name, p.edges(node).range)]);
    forall n | n in w'.visited && n !in w'.path ensures Covered(p, w', n) {
      assert Covered(p, w, n);
    }
  }

  lemma {:induction false} VisitSound(p: Params, root: NodeId, node: NodeId, depth: nat, w: Walk)
    requires depth <= p.maxDepth && Sound(p, root, w) && Closed(p, w)
    requires node !in w.visited && Hops(p, root, node, depth) && PathReaches(p, w.path, node)
    ensures var w' := Visit(p, node, depth, w).1;
            Sound(p, root, w') && Closed(p, w') && Grows(w, w') && node in w'.visited
    decreases p.maxDepth - depth, 2, 0
  {
    var w1 := Enter(p, node, depth, w);
    EnterSound(p, root, node, depth, w);
    EnterReaches(p, node, depth, w);
    if p.edges(node).Edges? {
      DescendAllSound(p, root, node, p.edges(node).children, depth, w1);
      VisitedSound(p, root, node, w, w1, DescendAll(p, node, p.edges(node).children, depth, w1).1, Visit(p, node, depth, w).0);
    } else {
      UnresolvedSound(p, root, node, w1);
      VisitedSound(p, root, node, w, w1, w1.(diags := w1.diags + [Unresolved(node, p.edges(node).name, p.edges(node).range)]),
                   Visit(p, node, depth, w).0);
    }
  }

  /** From entering a node over its edges to leaving it. */
  lemma VisitedSound(p: Params, root: NodeId, node: NodeId, w: Walk, w1: Walk, w2: Walk, v: Verdict)
    requires w1.visited == w.visited + {node} && w1.path == w.path + {node} && w1.diags == w.diags
    requires Sound(p, root, w2) && Closed(p, w2) && Grows(w1, w2) && Covered(p, w2, node) && node !in w.path
    ensures var w' := Leave(node, v, w2);
            Sound(p, root, w') && Closed(p, w') && Grows(w, w') && node in w'.visited
  {
    LeaveSound(p, root, node, v, w2);
    assert w.path + {node} - {node} == w.path;
  }

  lemma {:induction false} DescendAllSound(
      p: Params, root: NodeId, parent: NodeId, children: seq<NodeId>, depth: nat, w: Walk)
    requires depth <= p.maxDepth && Sound(p, root, w) && Closed(p, w)
    requires parent in w.path && Hops(p, root, parent, depth) && PathReaches(p, w.path, parent)
    requires forall c :: c in children ==> Child(p, parent, c)
    ensures var w' := DescendAll(p, parent, children, depth, w).1;
            Sound(p, root, w') && Closed(p, w') && Grows(w, w')
            && forall c :: c in children ==> Followed(p, w', c)
    decreases p.maxDepth - depth, 1, |children|
  {
    if children != [] {
      var last := |children| - 1;
      var w1 := DescendAll(p, parent, children[..last], depth, w).1;
      DescendAllSound(p, root, parent, children[..last], depth, w);
      DescendSound(p, root, parent, children[last], depth, w1);
      var w2 := Descend(p, parent, children[last], depth, w1).1;
      forall c | c in children ensures Followed(p, w2, c) {
        FollowedGrows(p, w1, w2, c);
        assert c in children[..last] || c == children[last];
      }
    }
  }

  lemma FollowedGrows(p: Params, w: Walk, w': Walk, c: NodeId)
    requires Grows(w, w')
    ensures Followed(p, w, c) ==> Followed(p, w', c)
  {
  }

  lemma {:induction false} DescendSound(p: Params, root: NodeId, parent: NodeId, child: NodeId, depth: nat, w: Walk)
    requires depth <= p.maxDepth && Sound(p, root, w) && Closed(p, w)
    requires parent in w.path && Hops(p, root, parent, depth) && PathReaches(p, w.path, parent)
    requires Child(p, parent, child)
    ensures var w' := Descend(p, parent, child, depth, w).1;
            Sound(p, root, w') && Closed(p, w') && Grows(w, w')
            && Followed(p, w', child)
    decreases p.maxDepth - depth, 0, 0
  {
    Step(p, root, parent, child, depth);
    forall m | m in w.path ensures Reaches(p, m, child) { StepReaches(p, m, parent, child); }
    if depth + 1 > p.maxDepth {
      assert DiagSound(p, root, DepthLimitReached(child, depth + 1));
    } else if child in w.path {
      assert DiagSound(p, root, CycleDetected(parent, child));
    } else if child !in w.visited {
      VisitSound(p, root, child, depth + 1, w);
    }
  }

  lemma WalkSound(p: Params, root: NodeId)
    ensures var w := DfsWalk(p, root).1;
            Sound(p, root, w) && Closed(p, w) && w.path == {} && root in w.visited
  {
    assert Hops(p, root, root, 0);
    VisitSound(p, root, root, 0, EMPTY);
  }

  // ------------------------------------------------------------------
  // Fail-closed soundness of the reported verdict
  // ------------------------------------------------------------------

  ghost predicate Cut(w: Walk, n: NodeId) {
    exists depth: nat :: DepthLimitReached(n, depth) in w.diags
  }

  ghost predicate NoCut(w: Walk) {
    forall d :: d in w.diags ==> !d.DepthLimitReached?
  }

  /** Nothing to report about this node on its own. */
  ghost predicate Clean(p: Params, n: NodeId) {
    p.scan(n) == Pass && p.edges(n).Edges?
  }

  lemma {:induction false} RowBounds(rows: seq<Row>)
    ensures forall r :: r in rows ==> r.verdict.Rank() <= WorstRow(rows).Rank()
    ensures WorstRow(rows) == Pass || exists r :: r in rows && r.verdict == WorstRow(rows)
  {
    if rows != [] {
      RowBounds(rows[..|rows| - 1]);
      assert rows == rows[..|rows| - 1] + [rows[|rows| - 1]];
    }
  }

  lemma {:induction false} DiagBounds(p: Params, ds: seq<Diagnostic>)
    ensures forall d :: d in ds ==> DiagFloor(p, d).Rank() <= WorstDiag(p, ds).Rank()
    ensures WorstDiag(p, ds) == Pass || exists d :: d in ds && DiagFloor(p, d) == WorstDiag(p, ds)
  {
    if ds != [] {
      DiagBounds(p, ds[..|ds| - 1]);
      assert ds == ds[..|ds| - 1] + [ds[|ds| - 1]];
    }
  }

  /** A reachable node that was not scanned lies behind a cut: every path to it
      runs through an unscanned node that a `DepthLimitReached` names. */
  lemma {:induction false} UnscannedIsBehindCut(p: Params, root: NodeId, n: NodeId, k: nat)
    returns (c: NodeId, before: nat, after: nat)
    requires Hops(p, root, n, k) && n !in DfsWalk(p, root).1.visited
    ensures Cut(DfsWalk(p, root).1, c) && c !in DfsWalk(p, root).1.visited
    ensures before + after == k && Hops(p, root, c, before) && Hops(p, c, n, after)
    decreases k
  {
    WalkSound(p, root);
    var w := DfsWalk(p, root).1;
    assert k != 0;
    var m :| Hops(p, root, m, k - 1) && Child(p, m, n);
    if m in w.visited {
      assert Covered(p, w, m);
      c, before, after := n, k, 0;
    } else {
      c, before, after := UnscannedIsBehindCut(p, root, m, k - 1);
      Step(p, c, m, n, after);
      after := after + 1;
    }
  }

  /** The scanned set is the whole reachable set iff every cut node was also
      scanned along some other branch. */
  lemma ScannedSetIsReachable(p: Params, root: NodeId)
    ensures var w := DfsWalk(p, root).1;
            && (forall n :: n in w.visited ==> Reaches(p, root, n))
            && ((forall n :: Reaches(p, root, n) ==> n in w.visited) <==> (forall c :: Cut(w, c) ==> c in w.visited))
  {
    WalkSound(p, root);
    var w := DfsWalk(p, root).1;
    forall n | n in w.visited ensures Reaches(p, root, n) {
      var r :| r in w.rows && r.node == n;
      assert RowSound(p, root, r);
    }
    forall c | Cut(w, c) ensures Reaches(p, root, c) {
      var depth: nat :| DepthLimitReached(c, depth) in w.diags;
      assert DiagSound(p, root, DepthLimitReached(c, depth));
    }
    if forall c :: Cut(w, c) ==> c in w.visited {
      forall n | Reaches(p, root, n) ensures n in w.visited {
        if n !in w.visited {
          var k: nat :| Hops(p, root, n, k);
          var c, before, after := UnscannedIsBehindCut(p, root, n, k);
        }
      }
    }
  }

  lemma RowsMeanVisited(p: Params, root: NodeId, w: Walk)
    requires Sound(p, root, w)
    ensures forall n :: n in w.visited ==> p.scan(n).Rank() <= WorstRow(w.rows).Rank()
    ensures WorstRow(w.rows) == Pass || exists n :: n in w.visited && p.scan(n) == WorstRow(w.rows)
  {
    RowBounds(w.rows);
    forall n | n in w.visited ensures p.scan(n).Rank() <= WorstRow(w.rows).Rank() {
      var r :| r in w.rows && r.node == n;
      assert RowSound(p, root, r);
    }
    if WorstRow(w.rows) != Pass {
      var r :| r in w.rows && r.verdict == WorstRow(w.rows);
      assert RowSound(p, root, r);
    }
  }

  lemma DiagsMeanFloors(p: Params, w: Walk)
    ensures WorstDiag(p, w.diags) == Block <==> p.onDepthLimit.FloorBlock? && !NoCut(w)
    ensures WorstDiag(p, w.diags) == Pass <==> NoCut(w) && forall d :: d in w.diags ==> !d.Unresolved?
  {
    DiagBounds(p, w.diags);
  }

  /** Only a scanned node is reported as having an unresolvable range, provided
      nothing was cut. */
  lemma UnresolvedAreScanned(p: Params, root: NodeId)
    ensures var w := DfsWalk(p, root).1;
            NoCut(w) ==> forall d :: d in w.diags && d.Unresolved? ==> d.from in w.visited && !Clean(p, d.from)
  {
    WalkSound(p, root);
    ScannedSetIsReachable(p, root);
    var w := DfsWalk(p, root).1;
    forall d | NoCut(w) && d in w.diags && d.Unresolved? ensures d.from in w.visited && !Clean(p, d.from) {
      assert DiagSound(p, root, d);
    }
  }

  lemma BlockMeaning(p: Params, root: NodeId)
    ensures var (v, w) := DfsWalk(p, root);
            v == Block <==> (exists n :: n in w.visited && p.scan(n) == Block)
                            || (p.onDepthLimit.FloorBlock? && !NoCut(w))
  {
    WalkVerdictIsWorst(p, root);
    WalkSound(p, root);
    RowsMeanVisited(p, root, DfsWalk(p, root).1);
    DiagsMeanFloors(p, DfsWalk(p, root).1);
  }

  lemma CleanWalkPasses(p: Params, root: NodeId)
    requires var w := DfsWalk(p, root).1; (forall n :: n in w.visited ==> Clean(p, n)) && NoCut(w)
    ensures DfsWalk(p, root).0 == Pass
  {
    var w := DfsWalk(p, root).1;
    WalkVerdictIsWorst(p, root);
    WalkSound(p, root);
    RowsMeanVisited(p, root, w);
    DiagsMeanFloors(p, w);
    UnresolvedAreScanned(p, root);
  }

  lemma PassingWalkIsClean(p: Params, root: NodeId)
    requires DfsWalk(p, root).0 == Pass
    ensures var w := DfsWalk(p, root).1; (forall n :: n in w.visited ==> Clean(p, n)) && NoCut(w)
  {
    var w := DfsWalk(p, root).1;
    WalkVerdictIsWorst(p, root);
    WalkSound(p, root);
    RowsMeanVisited(p, root, w);
    DiagsMeanFloors(p, w);
    forall n | n in w.visited ensures Clean(p, n) {
      assert Covered(p, w, n);
    }
  }

  /** What each of the three verdicts says about the recorded walk. */
  lemma VerdictMeaning(p: Params, root: NodeId)
    ensures var (v, w) := DfsWalk(p, root);
            && (v == Pass <==> (forall n :: n in w.visited ==> Clean(p, n)) && NoCut(w))
            && (v == Block <==> (exists n :: n in w.visited && p.scan(n) == Block)
                                || (p.onDepthLimit.FloorBlock? && !NoCut(w)))
  {
    var (v, w) := DfsWalk(p, root);
    BlockMeaning(p, root);
    if v == Pass {
      PassingWalkIsClean(p, root);
    } else if (forall n :: n in w.visited ==> Clean(p, n)) && NoCut(w) {
      CleanWalkPasses(p, root);
    }
  }

  /** A passing walk vouches for everything reachable, at any distance: no node
      can hide behind a clean dependency, a cycle, a diamond or the depth limit.
      Conversely the walk passes whenever everything reachable is clean and
      nothing was cut. */
  lemma PassVouchesForEverythingReachable(p: Params, root: NodeId)
    ensures var (v, w) := DfsWalk(p, root);
            v == Pass <==> (forall n :: Reaches(p, root, n) ==> Clean(p, n)) && NoCut(w)
  {
    VerdictMeaning(p, root);
    ScannedSetIsReachable(p, root);
  }

  /** Under the `block` depth policy a reachable blocked node always blocks, and
      under either policy it never passes. */
  lemma ReachableBlockIsNeverLost(p: Params, root: NodeId, n: NodeId)
    requires Reaches(p, root, n) && p.scan(n) == Block
    ensures DfsWalk(p, root).0 != Pass
    ensures p.onDepthLimit.FloorBlock? || n in DfsWalk(p, root).1.visited ==> DfsWalk(p, root).0 == Block
  {
    VerdictMeaning(p, root);
    var w := DfsWalk(p, root).1;
    if n !in w.visited {
      var k: nat :| Hops(p, root, n, k);
      var c, before, after := UnscannedIsBehindCut(p, root, n, k);
    }
  }

  /** When no node is `maxDepth + 1` hops away, the verdict is the worst over
      exactly the reachable nodes, whatever the order of the edges. */
  lemma ShallowGraphIsExact(p: Params, root: NodeId)
    requires forall n, k: nat :: Hops(p, root, n, k) ==> k != p.maxDepth + 1
    ensures var (v, w) := DfsWalk(p, root);
            && (forall n :: n in w.visited <==> Reaches(p, root, n))
            && (v == Pass <==> forall n :: Reaches(p, root, n) ==> Clean(p, n))
            && (v == Block <==> exists n :: Reaches(p, root, n) && p.scan(n) == Block)
  {
    WalkSound(p, root);
    var w := DfsWalk(p, root).1;
    forall d | d in w.diags ensures !d.DepthLimitReached? {
      assert DiagSound(p, root, d);
    }
    VerdictMeaning(p, root);
    ScannedSetIsReachable(p, root);
  }

  // ------------------------------------------------------------------
  // Depth: how far the walk really looks
  // ------------------------------------------------------------------

  /** Every node within `maxDepth` hops has been scanned. */
  ghost predicate CompleteWithinDepth(p: Params, root: NodeId) {
    forall n, k: nat :: k <= p.maxDepth && Hops(p, root, n, k) ==> n in DfsWalk(p, root).1.visited
  }

  /** A node that was only ever met beyond the limit has no path within it. */
  ghost predicate NoShortcut(p: Params, root: NodeId, c: NodeId) {
    forall k: nat :: Hops(p, root, c, k) ==> k > p.maxDepth
  }

  lemma UnscannedHasShortcut(p: Params, root: NodeId, n: NodeId, k: nat)
    requires k <= p.maxDepth && Hops(p, root, n, k) && n !in DfsWalk(p, root).1.visited
    ensures exists c :: Cut(DfsWalk(p, root).1, c) && c !in DfsWalk(p, root).1.visited && !NoShortcut(p, root, c)
  {
    var c, before, after := UnscannedIsBehindCut(p, root, n, k);
    assert !NoShortcut(p, root, c);
  }

  /** The walk is complete within its depth iff no cut node that stayed unscanned
      has a second, short enough path. */
  lemma CompleteWithinDepthIff(p: Params, root: NodeId)
    ensures var w := DfsWalk(p, root).1;
            CompleteWithinDepth(p, root) <==> (forall c :: Cut(w, c) && c !in w.visited ==> NoShortcut(p, root, c))
  {
    var w := DfsWalk(p, root).1;
    if forall c :: Cut(w, c) && c !in w.visited ==> NoShortcut(p, root, c) {
      forall n, k: nat | k <= p.maxDepth && Hops(p, root, n, k) ensures n in w.visited {
        if n !in w.visited { UnscannedHasShortcut(p, root, n, k); }
      }
    }
  }

  /** It is complete in particular when no node can be reached by two paths of
      different length. */
  lemma LayeredGraphIsComplete(p: Params, root: NodeId)
    requires forall n, j: nat, k: nat :: Hops(p, root, n, j) && Hops(p, root, n, k) ==> j == k
    ensures CompleteWithinDepth(p, root)
  {
    WalkSound(p, root);
    var w := DfsWalk(p, root).1;
    forall c | Cut(w, c) ensures NoShortcut(p, root, c) {
      var depth: nat :| DepthLimitReached(c, depth) in w.diags;
      assert DiagSound(p, root, DepthLimitReached(c, depth));
    }
    CompleteWithinDepthIff(p, root);
  }

  /** Four nodes in a diamond: the root needs A and B in some order, A needs B, B
      needs C, and only C is blocked; the limit is two hops, which is how far C is. */
  ghost predicate Diamond(p: Params, root: NodeId, first: NodeId, second: NodeId, a: NodeId, b: NodeId, c: NodeId) {
    && root != a && root != b && root != c && a != b && a != c && b != c
    && p.edges(root) == Edges([first, second]) && p.edges(a) == Edges([b])
    && p.edges(b) == Edges([c]) && p.edges(c) == Edges([])
    && p.scan(root) == p.scan(a) == p.scan(b) == Pass && p.scan(c) == Block
    && p.maxDepth == 2 && p.onDepthLimit == FloorWarn
  }

  /** A node within the depth can stay unscanned, and the verdict can depend on the
      order of sibling edges: with A first, B is met at depth 2, its child C is cut,
      and the root's own edge to B reuses that visit. With B first the walk blocks. */
  lemma SiblingOrderMatters(p: Params, q: Params, root: NodeId, a: NodeId, b: NodeId, c: NodeId)
    requires Diamond(p, root, a, b, a, b, c) && Diamond(q, root, b, a, a, b, c)
    ensures DfsWalk(p, root).0 == Warn && !CompleteWithinDepth(p, root)
    ensures DfsWalk(q, root).0 == Block
  {
    DiamondAFirst(p, root, a, b, c);
    DiamondBFirst(q, root, a, b, c);
    Step(p, root, root, b, 0);
    Step(p, root, b, c, 1);
  }

  /** Edges of the diamond, with the root's two in the given order. */
  function DiamondEdges(first: NodeId, second: NodeId): NodeId -> EdgeResult {
    n => if n == Git("r", "") then Edges([first, second]) else if n == Git("a", "") then Edges([Git("b", "")])
         else if n == Git("b", "") then Edges([Git("c", "")]) else Edges([])
  }

  function DiamondScan(): NodeId -> Verdict {
    n => if n == Git("c", "") then Block else Pass
  }

  lemma DiamondNodesDiffer()
    ensures var (root, a, b, c) := (Git("r", ""), Git("a", ""), Git("b", ""), Git("c", ""));
            root != a && root != b && root != c && a != b && a != c && b != c
  {
    assert "r"[0] == 'r' && "a"[0] == 'a' && "b"[0] == 'b' && "c"[0] == 'c';
  }

  /** Such a pair of walks exists. */
  lemma SiblingOrderCounterexample()
    ensures exists p: Params, q: Params, root: NodeId ::
              p.scan == q.scan && p.maxDepth == q.maxDepth && (forall n :: Child(p, root, n) <==> Child(q, root, n))
              && DfsWalk(p, root).0 == Warn && DfsWalk(q, root).0 == Block
  {
    var (root, a, b, c) := (Git("r", ""), Git("a", ""), Git("b", ""), Git("c", ""));
    DiamondNodesDiffer();
    var p := Params(DiamondEdges(a, b), DiamondScan(), 2, FloorWarn);
    var q := Params(DiamondEdges(b, a), DiamondScan(), 2, FloorWarn);
    SiblingOrderMatters(p, q, root, a, b, c);
  }

  /** A met first: it reaches B at the depth limit. */
  lemma VisitA(p: Params, root: NodeId, a: NodeId, b: NodeId, c: NodeId)
    requires Diamond(p, root, a, b, a, b, c)
    ensures var (va, w) := Descend(p, root, a, 0, Enter(p, root, 0, EMPTY));
            va == Warn && w.path == {root} && w.visited == {root, a, b} && Recorded(b, w) == Warn
  {
    var w0 := Enter(p, root, 0, EMPTY);
    DeepB(p, b, c, Enter(p, a, 1, w0));
    VisitOnlyChild(p, a, b, 1, w0);
  }

  lemma DiamondAFirst(p: Params, root: NodeId, a: NodeId, b: NodeId, c: NodeId)
    requires Diamond(p, root, a, b, a, b, c)
    ensures DfsWalk(p, root).0 == Warn && c !in DfsWalk(p, root).1.visited
  {
    VisitA(p, root, a, b, c);
    var w1 := Descend(p, root, a, 0, Enter(p, root, 0, EMPTY)).1;
    assert Descend(p, root, b, 0, w1) == (Warn, w1);
    VisitTwoChildren(p, root, a, b, 0, EMPTY);
  }

  /** B met at the depth limit: its child is cut. */
  lemma DeepB(p: Params, b: NodeId, c: NodeId, w: Walk)
    requires p.edges(b) == Edges([c]) && p.scan(b) == Pass && p.maxDepth == 2 && p.onDepthLimit == FloorWarn
    ensures var (v, w') := Visit(p, b, 2, w);
            v == Warn && w'.visited == w.visited + {b} && w'.path == w.path - {b}
            && w'.verdicts == w.verdicts[b := Warn]
  {
    VisitOnlyChild(p, b, c, 2, w);
  }

  lemma VisitLeaf(p: Params, node: NodeId, depth: nat, w: Walk)
    requires depth <= p.maxDepth && p.edges(node) == Edges([])
    ensures Visit(p, node, depth, w).0 == p.scan(node)
  {
    CombineOwn(p.scan(node), []);
  }

  /** B met first: it reaches C within the limit. */
  lemma VisitB(q: Params, root: NodeId, a: NodeId, b: NodeId, c: NodeId)
    requires Diamond(q, root, b, a, a, b, c)
    ensures Descend(q, root, b, 0, Enter(q, root, 0, EMPTY)).0 == Block
  {
    var w0 := Enter(q, root, 0, EMPTY);
    VisitLeaf(q, c, 2, Enter(q, b, 1, w0));
    VisitOnlyChild(q, b, c, 1, w0);
  }

  lemma DiamondBFirst(q: Params, root: NodeId, a: NodeId, b: NodeId, c: NodeId)
    requires Diamond(q, root, b, a, a, b, c)
    ensures DfsWalk(q, root).0 == Block
  {
    VisitB(q, root, a, b, c);
    VisitTwoChildren(q, root, b, a, 0, EMPTY);
  }

  lemma CombineTwo(own: Verdict, a: Verdict, b: Verdict)
    ensures CombineVerdicts([own] + [a, b]) == Worse(own, Worse(a, b))
    ensures CombineVerdicts([own] + [a]) == Worse(own, a)
  {
    CombineOwn(own, [a, b]);
    CombineOwn(own, [a]);
    WorstAppend([], a);
    WorstAppend([a], b);
    assert [] + [a] == [a] && [a] + [b] == [a, b];
  }

  lemma VisitOnlyChild(p: Params, node: NodeId, child: NodeId, depth: nat, w: Walk)
    requires depth <= p.maxDepth && p.edges(node) == Edges([child])
    ensures var (c, w') := Descend(p, node, child, depth, Enter(p, node, depth, w));
            var v := Worse(p.scan(node), c);
            Visit(p, node, depth, w) == (v, Leave(node, v, w'))
  {
    OnlyChild(p, node, child, depth, Enter(p, node, depth, w));
    CombineTwo(p.scan(node), Descend(p, node, child, depth, Enter(p, node, depth, w)).0, Pass);
  }

  lemma VisitTwoChildren(p: Params, node: NodeId, a: NodeId, b: NodeId, depth: nat, w: Walk)
    requires depth <= p.maxDepth && p.edges(node) == Edges([a, b])
    ensures var (va, wa) := Descend(p, node, a, depth, Enter(p, node, depth, w));
            var (vb, wb) := Descend(p, node, b, depth, wa);
            var v := Worse(p.scan(node), Worse(va, vb));
            Visit(p, node, depth, w) == (v, Leave(node, v, wb))
  {
    TwoChildren(p, node, a, b, depth, Enter(p, node, depth, w));
    var (va, wa) := Descend(p, node, a, depth, Enter(p, node, depth, w));
    CombineTwo(p.scan(node), va, Descend(p, node, b, depth, wa).0);
  }

  lemma OnlyChild(p: Params, parent: NodeId, child: NodeId, depth: nat, w: Walk)
    requires depth <= p.maxDepth
    ensures DescendAll(p, parent, [child], depth, w)
         == var (c, w') := Descend(p, parent, child, depth, w); ([c], w')
  {
    assert [child][..0] == [];
    assert DescendAll(p, parent, [], depth, w) == ([], w);
    var (c, w') := Descend(p, parent, child, depth, w);
    assert [] + [c] == [c];
  }

  lemma TwoChildren(p: Params, parent: NodeId, a: NodeId, b: NodeId, depth: nat, w: Walk)
    requires depth <= p.maxDepth
    ensures DescendAll(p, parent, [a, b], depth, w)
         == var (va, wa) := Descend(p, parent, a, depth, w);
            var (vb, wb) := Descend(p, parent, b, depth, wa);
            ([va, vb], wb)
  {
    assert [a, b][..1] == [a];
    OnlyChild(p, parent, a, depth, w);
    var (va, wa) := Descend(p, parent, a, depth, w);
    var (vb, wb) := Descend(p, parent, b, depth, wa);
    assert DescendAll(p, parent, [a, b][..1], depth, w) == ([va], wa);
    assert [va] + [vb] == [va, vb];
  }

  // ------------------------------------------------------------------
  // Cycle reports are exact
  // ------------------------------------------------------------------

  ghost predicate Quiet(w: Walk) {
    forall d :: d in w.diags ==> !d.DepthLimitReached? && !d.CycleDetected?
  }

  /** Children come before their parents. */
  ghost predicate Ordered(p: Params, order: seq<NodeId>) {
    forall i, c :: 0 <= i < |order| && Child(p, order[i], c) ==> c in order[..i]
  }

  /** `order` lists the nodes that have been finished. */
  ghost predicate Finished(p: Params, w: Walk, order: seq<NodeId>) {
    Ordered(p, order) && forall n :: n in order <==> n in w.visited && n !in w.path
  }

  lemma {:induction false} VisitOrder(p: Params, node: NodeId, depth: nat, w: Walk, order: seq<NodeId>)
    returns (order': seq<NodeId>)
    requires depth <= p.maxDepth && node !in w.visited && w.path <= w.visited && Finished(p, w, order)
    requires Quiet(Visit(p, node, depth, w).1)
    ensures var w' := Visit(p, node, depth, w).1;
            Finished(p, w', order') && order <= order' && node in order' && Grows(w, w')
    decreases p.maxDepth - depth, 2, 0
  {
    var w1 := Enter(p, node, depth, w);
    order' := order;
    if p.edges(node).Edges? {
      order' := DescendAllOrder(p, node, p.edges(node).children, depth, w1, order);
    }
    var before := order';
    order' := before + [node];
    forall i, c | 0 <= i < |order'| && Child(p, order'[i], c) ensures c in order'[..i] {
      assert order'[..i] == before[..i];
    }
  }

  lemma {:induction false} DescendAllOrder(
      p: Params, parent: NodeId, children: seq<NodeId>, depth: nat, w: Walk, order: seq<NodeId>)
    returns (order': seq<NodeId>)
    requires depth <= p.maxDepth && w.path <= w.visited && Finished(p, w, order)
    requires Quiet(DescendAll(p, parent, children, depth, w).1)
    ensures var w' := DescendAll(p, parent, children, depth, w).1;
            Finished(p, w', order') && order <= order' && Grows(w, w') && forall c :: c in children ==> c in order'
    decreases p.maxDepth - depth, 1, |children|
  {
    order' := order;
    if children != [] {
      var last := |children| - 1;
      var w1 := DescendAll(p, parent, children[..last], depth, w).1;
      DiagsGrow(p, parent, children[last], depth, w1);
      order' := DescendAllOrder(p, parent, children[..last], depth, w, order);
      order' := DescendOrder(p, parent, children[last], depth, w1, order');
    }
  }

  lemma {:induction false} DescendOrder(
      p: Params, parent: NodeId, child: NodeId, depth: nat, w: Walk, order: seq<NodeId>)
    returns (order': seq<NodeId>)
    requires depth <= p.maxDepth && w.path <= w.visited && Finished(p, w, order)
    ensures var w' := Descend(p, parent, child, depth, w).1;
            Quiet(w') ==> Finished(p, w', order') && order <= order' && Grows(w, w') && child in order'
    decreases p.maxDepth - depth, 0, 0
  {
    order' := order;
    var w' := Descend(p, parent, child, depth, w).1;
    if depth + 1 > p.maxDepth {
      assert w'.diags[|w.diags|] == DepthLimitReached(child, depth + 1);
    } else if child in w.path {
      assert w'.diags[|w.diags|] == CycleDetected(parent, child);
    } else if child !in w.visited && Quiet(w') {
      order' := VisitOrder(p, child, depth + 1, w, order);
    }
  }

  lemma {:induction false} DiagsGrow(p: Params, parent: NodeId, child: NodeId, depth: nat, w: Walk)
    requires depth <= p.maxDepth
    ensures w.diags <= Descend(p, parent, child, depth, w).1.diags
    decreases p.maxDepth - depth, 0, 0
  {
    if depth + 1 <= p.maxDepth && child !in w.path && child !in w.visited && p.edges(child).Edges? {
      AllDiagsGrow(p, child, p.edges(child).children, depth + 1, Enter(p, child, depth + 1, w));
    }
  }

  lemma {:induction false} AllDiagsGrow(p: Params, parent: NodeId, children: seq<NodeId>, depth: nat, w: Walk)
    requires depth <= p.maxDepth
    ensures w.diags <= DescendAll(p, parent, children, depth, w).1.diags
    decreases p.maxDepth - depth, 1, |children|
  {
    if children != [] {
      var last := |children| - 1;
      AllDiagsGrow(p, parent, children[..last], depth, w);
      DiagsGrow(p, parent, children[last], depth, DescendAll(p, parent, children[..last], depth, w).1);
    }
  }

  /** In an ordered list every path leads strictly backwards. */
  lemma {:induction false} OrderedGoesBack(p: Params, order: seq<NodeId>, i: nat, n: NodeId, k: nat)
    requires Ordered(p, order) && i < |order| && k > 0 && Hops(p, order[i], n, k)
    ensures n in order[..i]
    decreases k
  {
    var m :| Hops(p, order[i], m, k - 1) && Child(p, m, n);
    if k > 1 {
      OrderedGoesBack(p, order, i, m, k - 1);
      var j :| 0 <= j < i && order[j] == m;
      assert n in order[..j];
    }
  }

  lemma {:induction false} OrderedHasNoCycle(p: Params, order: seq<NodeId>, i: nat, k: nat)
    requires Ordered(p, order) && i < |order| && k > 0 && Hops(p, order[i], order[i], k)
    ensures false
    decreases i
  {
    OrderedGoesBack(p, order, i, order[i], k);
    var j :| 0 <= j < i && order[j] == order[i];
    OrderedHasNoCycle(p, order, j, k);
  }

  ghost predicate OnCycle(p: Params, n: NodeId) {
    exists k: nat :: k > 0 && Hops(p, n, n, k)
  }

  predicate ReportsCycle(w: Walk) {
    exists d :: d in w.diags && d.CycleDetected?
  }

  ghost predicate ReachesCycle(p: Params, root: NodeId) {
    exists n :: Reaches(p, root, n) && OnCycle(p, n)
  }

  lemma ReportedCycleIsReal(p: Params, root: NodeId)
    ensures ReportsCycle(DfsWalk(p, root).1) ==> ReachesCycle(p, root)
  {
    WalkSound(p, root);
    var w := DfsWalk(p, root).1;
    if d :| d in w.diags && d.CycleDetected? {
      assert DiagSound(p, root, d);
      var k: nat :| Hops(p, d.to, d.from, k);
      Step(p, d.to, d.from, d.to, k);
      assert OnCycle(p, d.to);
      StepReaches(p, root, d.from, d.to);
    }
  }

  /** A reported back-edge is always on a reachable cycle, and a walk that cut nothing
      reports one iff a reachable node lies on a cycle. */
  lemma CycleReportIsExact(p: Params, root: NodeId)
    ensures ReportsCycle(DfsWalk(p, root).1) ==> ReachesCycle(p, root)
    ensures NoCut(DfsWalk(p, root).1) ==> (ReportsCycle(DfsWalk(p, root).1) <==> ReachesCycle(p, root))
  {
    var w := DfsWalk(p, root).1;
    ReportedCycleIsReal(p, root);
    WalkSound(p, root);
    ScannedSetIsReachable(p, root);
    if NoCut(w) && !ReportsCycle(w) {
      assert Quiet(w);
      var order := VisitOrder(p, root, 0, EMPTY, []);
      forall n | Reaches(p, root, n) ensures !OnCycle(p, n) {
        if k: nat :| k > 0 && Hops(p, n, n, k) {
          var i :| 0 <= i < |order| && order[i] == n;
          OrderedHasNoCycle(p, order, i, k);
        }
      }
    }
  }
}
