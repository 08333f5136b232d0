/** The transitive scan over the cache: the edges it is given, the rows it drops before it
    starts, and the verdicts it reads. */
module CachedWalk {
  import opened Verdicts
  import opened HashGate
  import opened VerdictCache
  import opened Framing
  import opened Graph
  import opened SubtreeGate
  import opened ScanLoop
  import opened NodeScanner
  import opened CacheRuns
  import opened TransitiveWalk
  import opened TransitiveScan

  /** What a transitive scan finds around it: the lockfile's edges and nodes, what each git
      package answers (by name alone, as its origin is looked up), the edges in a fetched
      root's manifest, the direct dependencies, and the limits. */
  datatype Around = Around(graph: NodeId -> seq<NodeId>, listed: seq<NodeId>, git: string -> GitNode,
                           manifest: NodeId -> EdgeResult, roots: seq<NodeId>, maxDepth: nat,
                           onDepthLimit: OnDepthLimit, maxNodes: nat)

  function At(k: Around, name: string): GitNode {
    k.git(name).(name := name)
  }

  /** A git node's row, once its name resolves. */
  function RowKey(k: Around, name: string): Key
    requires At(k, name).target.Some?
  {
    GitKey(name, At(k, name).target.value)
  }

  // ------------------------------------------------------------------
  // Edges
  // ------------------------------------------------------------------

  /** Git nodes other than fetched roots are leaves: warm roots, those that cannot be
      fetched, and every git node further down. */
  function EdgesOver(k: Around, t: Table): NodeId -> EdgeResult {
    (n: NodeId) =>
      if n.Registry? then Edges(k.graph(n))
      else if n in k.roots && Prefetched(t, At(k, n.name)) && At(k, n.name).tree.Some? then k.manifest(n)
      else Edges([])
  }

  /** What a git root's manifest adds. */
  function Manifest(edges: NodeId -> EdgeResult, root: NodeId): seq<NodeId> {
    if root.Git? && edges(root).Edges? then edges(root).children else []
  }

  /** The nodes that the manifests of git roots add to the budget. */
  function Discovered(edges: NodeId -> EdgeResult, roots: seq<NodeId>): seq<NodeId> {
    if roots == [] then []
    else Discovered(edges, roots[..|roots| - 1]) + Manifest(edges, roots[|roots| - 1])
  }

  function BreachOver(k: Around, edges: NodeId -> EdgeResult): Option<Breach> {
    Charged(k.maxNodes, {}, k.listed + k.roots + Discovered(edges, k.roots)).0
  }

  // ------------------------------------------------------------------
  // Scans
  // ------------------------------------------------------------------

  /** The verdict of a node; `registry` is what the flat results say. */
  function VerdictOver(sha256: Hash, k: Around, t: Table, registry: NodeId -> Verdict): NodeId -> Verdict {
    (n: NodeId) => if n.Registry? then registry(n) else ScanNode(sha256, t, At(k, n.name)).1
  }

  /** Nodes scanned in order, each over the table the last one left. */
  function Scanned(sha256: Hash, k: Around, t: Table, registry: NodeId -> Verdict, nodes: seq<NodeId>)
    : (Table, seq<ChildVerdict>)
  {
    if nodes == [] then (t, [])
    else
      var ((t1, verdicts), n) := (Scanned(sha256, k, t, registry, nodes[..|nodes| - 1]), nodes[|nodes| - 1]);
      if n.Registry? then (t1, verdicts + [(n, registry(n))])
      else
        var (t2, v) := ScanNode(sha256, t1, At(k, n.name));
        (t2, verdicts + [(n, v)])
  }

  method ScanNodes(sha256: Hash, cache: Cache, k: Around, registry: NodeId -> Verdict, nodes: seq<NodeId>)
    returns (verdicts: seq<ChildVerdict>)
    modifies cache
    ensures (cache.table, verdicts) == Scanned(sha256, k, old(cache.table), registry, nodes)
  {
    verdicts := [];
    for i := 0 to |nodes|
      invariant (cache.table, verdicts) == Scanned(sha256, k, old(cache.table), registry, nodes[..i])
    {
      assert nodes[..i + 1][..i] == nodes[..i];
      var v;
      if nodes[i].Registry? {
        v := registry(nodes[i]);
      } else {
        v := RunNodeScan(sha256, cache, At(k, nodes[i].name));
      }
      verdicts := verdicts + [(nodes[i], v)];
    }
    assert nodes[..|nodes|] == nodes;
  }

  /** A scan changes no verdict: what it writes is what a second scan would find. */
  lemma ScanIsStable(sha256: Hash, k: Around, t: Table, m: string, n: string)
    ensures ScanNode(sha256, ScanNode(sha256, t, At(k, m)).0, At(k, n)).1 == ScanNode(sha256, t, At(k, n)).1
  {
    var a := At(k, m);
    if a.target.Some? && a.tree.Some? {
      Sha256IsUsable(sha256, FramePairs(AsPairs(a.tree.value)));
      GateIsEquivalence(NodeScanner.NodeRow(sha256, a).contentHash, None, None);
    }
  }

  /** However many nodes have been scanned, and however often, each has one verdict: so the
      walk may be described by a function from nodes to verdicts. */
  lemma {:induction false} ScansAreStable(sha256: Hash, k: Around, t: Table, registry: NodeId -> Verdict, nodes: seq<NodeId>)
    ensures var (t1, verdicts) := Scanned(sha256, k, t, registry, nodes);
            && (forall n :: VerdictOver(sha256, k, t1, registry)(n) == VerdictOver(sha256, k, t, registry)(n))
            && |verdicts| == |nodes|
            && forall i :: 0 <= i < |nodes| ==> verdicts[i] == (nodes[i], VerdictOver(sha256, k, t, registry)(nodes[i]))
  {
    if nodes != [] {
      var (init, last) := (nodes[..|nodes| - 1], nodes[|nodes| - 1]);
      ScansAreStable(sha256, k, t, registry, init);
      var t1 := Scanned(sha256, k, t, registry, init).0;
      assert VerdictOver(sha256, k, t1, registry)(last) == VerdictOver(sha256, k, t, registry)(last);
      if last.Git? {
        forall n: NodeId ensures VerdictOver(sha256, k, ScanNode(sha256, t1, At(k, last.name)).0, registry)(n)
                              == VerdictOver(sha256, k, t1, registry)(n) {
          ScanIsStable(sha256, k, t1, last.name, n.name);
        }
      }
    }
  }

  // ------------------------------------------------------------------
  // Rows dropped before the walk
  // ------------------------------------------------------------------

  /** A root's row with a subtree digest is dropped unless the digest is that of its
      children's verdicts now. */
  function Revalidated(sha256: Hash, k: Around, t: Table, registry: NodeId -> Verdict, edges: NodeId -> EdgeResult,
                       root: NodeId): Table
  {
    var n := At(k, root.name);
    if root.Registry? || n.target.None? || ClassifyRef(n.target.value).Mutable? || !n.db.lookupOk then t
    else
      var key := RowKey(k, root.name);
      if key !in t || t[key].subtreeDigest.None? || !edges(root).Edges? then t
      else
        var (t1, children) := Scanned(sha256, k, t, registry, edges(root).children);
        if SubtreeDigestValid(t[key].subtreeDigest, Some(ChildrenDigest(sha256, children))) || !n.db.invalidateOk then t1
        else t1 - {key}
  }

  function Settled(sha256: Hash, k: Around, t: Table, registry: NodeId -> Verdict, edges: NodeId -> EdgeResult,
                   roots: seq<NodeId>): Table
  {
    if roots == [] then t
    else
      Revalidated(sha256, k, Settled(sha256, k, t, registry, edges, roots[..|roots| - 1]), registry, edges, roots[|roots| - 1])
  }

  lemma OneRoot(sha256: Hash, k: Around, t: Table, registry: NodeId -> Verdict, edges: NodeId -> EdgeResult, root: NodeId)
    ensures Settled(sha256, k, t, registry, edges, [root]) == Revalidated(sha256, k, t, registry, edges, root)
    ensures Discovered(edges, [root]) == Manifest(edges, root)
  {
    assert [root][..0] == [];
    assert Settled(sha256, k, t, registry, edges, []) == t;
    assert Discovered(edges, []) + Manifest(edges, root) == Manifest(edges, root);
  }

  method Revalidate(sha256: Hash, cache: Cache, k: Around, registry: NodeId -> Verdict, edges: NodeId -> EdgeResult,
                    root: NodeId)
    modifies cache
    ensures cache.table == Revalidated(sha256, k, old(cache.table), registry, edges, root)
  {
    if root.Registry? { return; }
    var n := At(k, root.name);
    if n.target.None? || ClassifyRef(n.target.value) != Pinned || !n.db.lookupOk { return; }
    var row := cache.Lookup(root.name, n.target.value, "git");
    if row.None? || row.value.subtreeDigest.None? { return; }
    match edges(root) {
      case UnresolvedRange(_, _) =>
      case Edges(nodes) =>
        var children := ScanNodes(sha256, cache, k, registry, nodes);
        var digest := ComputeSubtreeDigest(sha256, ChildPairs(children));
        if !SubtreeDigestValid(row.value.subtreeDigest, Some(digest)) && n.db.invalidateOk {
          cache.Invalidate(root.name, n.target.value, "git");
        }
    }
  }

  method InvalidateStaleParents(sha256: Hash, cache: Cache, k: Around, registry: NodeId -> Verdict,
                                edges: NodeId -> EdgeResult)
    modifies cache
    ensures cache.table == Settled(sha256, k, old(cache.table), registry, edges, k.roots)
  {
    for i := 0 to |k.roots|
      invariant cache.table == Settled(sha256, k, old(cache.table), registry, edges, k.roots[..i])
    {
      assert k.roots[..i + 1][..i] == k.roots[..i];
      Revalidate(sha256, cache, k, registry, edges, k.roots[i]);
    }
    assert k.roots[..|k.roots|] == k.roots;
  }

  // ------------------------------------------------------------------
  // The whole phase
  // ------------------------------------------------------------------

  /** What the walk is given over a table: edges as they are when it starts, verdicts after
      the stale rows are dropped. */
  function GivenParams(sha256: Hash, k: Around, t: Table, registry: NodeId -> Verdict): Params {
    var edges := EdgesOver(k, t);
    Params(edges, VerdictOver(sha256, k, Settled(sha256, k, t, registry, edges, k.roots), registry), k.maxDepth, k.onDepthLimit)
  }

  /** What is charged up to a root, and with the roots after it. */
  function ChargedTo(k: Around, edges: NodeId -> EdgeResult, i: nat): (Option<Breach>, set<NodeId>)
    requires i <= |k.roots|
  {
    Charged(k.maxNodes, {}, k.listed + k.roots + Discovered(edges, k.roots[..i]))
  }

  lemma ChargeRoot(k: Around, edges: NodeId -> EdgeResult, i: nat)
    requires i < |k.roots|
    ensures var (before, children) := (ChargedTo(k, edges, i), Manifest(edges, k.roots[i]));
            ChargedTo(k, edges, i + 1) == if before.0.Some? then before else Charged(k.maxNodes, before.1, children)
  {
    var (first, before, children) := (k.listed + k.roots, Discovered(edges, k.roots[..i]), Manifest(edges, k.roots[i]));
    assert k.roots[..i + 1][..i] == k.roots[..i];
    assert first + (before + children) == (first + before) + children;
    ChargedMore(k.maxNodes, {}, first + before, children);
  }

  lemma {:induction false} BreachIsFinal(k: Around, edges: NodeId -> EdgeResult, i: nat)
    requires i <= |k.roots| && ChargedTo(k, edges, i).0.Some?
    ensures ChargedTo(k, edges, |k.roots|) == ChargedTo(k, edges, i)
    decreases |k.roots| - i
  {
    if i < |k.roots| {
      ChargeRoot(k, edges, i);
      BreachIsFinal(k, edges, i + 1);
    }
  }

  lemma ChargedEnds(k: Around, edges: NodeId -> EdgeResult)
    ensures ChargedTo(k, edges, 0) == Charged(k.maxNodes, {}, k.listed + k.roots)
    ensures ChargedTo(k, edges, |k.roots|).0 == BreachOver(k, edges)
  {
    assert k.listed + k.roots + Discovered(edges, k.roots[..0]) == k.listed + k.roots;
    assert k.roots[..|k.roots|] == k.roots;
  }

  /** The budget over the lockfile, the roots, and then the manifests of git roots. */
  method ChargeEverything(k: Around, edges: NodeId -> EdgeResult) returns (breach: Option<Breach>)
    ensures breach == BreachOver(k, edges)
  {
    var budget := new NodeBudget(k.maxNodes);
    ChargedEnds(k, edges);
    breach := ChargeAll(budget, k.listed + k.roots);
    ghost var done := 0;
    for i := 0 to |k.roots|
      invariant budget.limit == k.maxNodes
      invariant done <= |k.roots| && (breach.None? ==> done == i)
      invariant (breach, budget.counted) == ChargedTo(k, edges, done)
    {
      if breach.Some? { break; }
      ChargeRoot(k, edges, i);
      breach := ChargeAll(budget, Manifest(edges, k.roots[i]));
      done := i + 1;
    }
    if breach.Some? {
      BreachIsFinal(k, edges, done);
    }
  }

  /** Prefetch, budget, dropped rows, walks. */
  method RunTransitiveScan(sha256: Hash, cache: Cache, k: Around, registry: NodeId -> Verdict) returns (outcome: Outcome)
    modifies cache
    ensures outcome.breach == BreachOver(k, EdgesOver(k, old(cache.table)))
    ensures outcome.breach.None? ==> outcome.worst == WorstOfRoots(GivenParams(sha256, k, old(cache.table), registry), k.roots)
    ensures outcome.breach.Some? ==> outcome.worst.None? && cache.table == old(cache.table)
  {
    var edges := EdgesOver(k, cache.table);
    var breach := ChargeEverything(k, edges);
    if breach.None? {
      InvalidateStaleParents(sha256, cache, k, registry, edges);
    }
    var p := Params(edges, VerdictOver(sha256, k, cache.table, registry), k.maxDepth, k.onDepthLimit);
    outcome := RunRoots(p, k.roots, breach);
  }
}
