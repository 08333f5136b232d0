/** What a table from before a run leaves for its walk: the git rows without attribution
    that the flat scan failed to replace, and nothing else. */
module Leftovers {
  import opened Verdicts
  import opened HashGate
  import opened VerdictCache
  import opened Framing
  import opened Graph
  import opened SubtreeGate
  import opened ScanLoop
  import opened NodeScanner
  import opened CacheRuns
  import opened FetchCounts
  import opened Transparency
  import opened TransitiveWalk
  import opened CachedWalk

  // ------------------------------------------------------------------
  // After the flat scan
  // ------------------------------------------------------------------

  /** A row that the flat scan never serves and the walk may still read. */
  predicate Leftover(t: Table, key: Key) {
    key in t && AttributedHit(t[key]).None?
  }

  predicate WritesKey(s: Scan, key: Key) {
    s.GitScan? && GitKey(s.name, s.ref) == key && s.db.writeOk
  }

  ghost predicate Written(scans: seq<Scan>, key: Key) {
    exists i :: 0 <= i < |scans| && WritesKey(scans[i], key)
  }

  ghost predicate AllAnswerable(scans: seq<Scan>) {
    forall i :: 0 <= i < |scans| ==> Answerable(scans[i])
  }

  lemma ScanReplaces(sha256: Hash, t: Table, s: Scan, key: Key)
    requires PinnedGit(key) && Answerable(s)
    ensures var t1 := ScanOne(sha256, t, s).0;
            if WritesKey(s, key) then !Leftover(t1, key) else Find(t1, key) == Find(t, key)
  {
    if s.RegistryScan? {
      RegistryIsNotGit(s.registry);
    }
  }

  /** A leftover row is gone after the flat scan iff some scan of its commit could write;
      a row that no scan of its commit could write is as it was. */
  lemma {:induction false} LeftoverStaysIff(sha256: Hash, t: Table, scans: seq<Scan>, key: Key)
    requires PinnedGit(key) && AllAnswerable(scans)
    ensures var t1 := ScanAll(sha256, t, scans).0;
            && (Leftover(t1, key) <==> Leftover(t, key) && !Written(scans, key))
            && (!Written(scans, key) ==> Find(t1, key) == Find(t, key))
  {
    if scans != [] {
      var (init, s) := (scans[..|scans| - 1], scans[|scans| - 1]);
      LeftoverStaysIff(sha256, t, init, key);
      ScanReplaces(sha256, ScanAll(sha256, t, init).0, s, key);
      WrittenPush(scans, key);
    }
  }

  lemma WrittenPush(scans: seq<Scan>, key: Key)
    requires scans != []
    ensures Written(scans, key) <==> Written(scans[..|scans| - 1], key) || WritesKey(scans[|scans| - 1], key)
  {
    var init := scans[..|scans| - 1];
    assert forall i :: 0 <= i < |init| ==> init[i] == scans[i];
  }

  // ------------------------------------------------------------------
  // Without leftovers
  // ------------------------------------------------------------------

  /** What holds of every table a run reaches. */
  ghost predicate Kept(w: World, t: Table) {
    TableTrue(w, t) && DigestsUnserved(t)
  }

  lemma ReachableIsKept(sha256: Hash, w: World, t0: Table, events: seq<Event>)
    requires Unattributed(t0) && AllAgree(w, events)
    ensures Kept(w, RunEvents(sha256, t0, events))
  {
    ReachableIsTrue(sha256, w, t0, events);
    ReachableDigests(sha256, t0, events);
  }

  /** The walk's git packages answer as the world does, and pinned commits can be fetched. */
  ghost predicate Walkable(w: World, k: Around) {
    forall name :: NodeAgrees(w, At(k, name)) && (Pins(k, name) ==> At(k, name).tree.Some?)
  }

  predicate Pins(k: Around, name: string) {
    At(k, name).target.Some? && ClassifyRef(At(k, name).target.value).Pinned?
  }

  ghost predicate NoLeftovers(k: Around, t: Table) {
    forall name :: Pins(k, name) ==> !Leftover(t, RowKey(k, name))
  }

  lemma FlatKeepsDigests(sha256: Hash, t: Table, s: Scan)
    requires DigestsUnserved(t)
    ensures DigestsUnserved(ScanOne(sha256, t, s).0)
  {
  }

  lemma {:induction false} FlatKeeps(sha256: Hash, w: World, t: Table, scans: seq<Scan>)
    requires Kept(w, t) && RunAgrees(w, scans)
    ensures Kept(w, ScanAll(sha256, t, scans).0)
  {
    if scans != [] {
      var (init, s) := (scans[..|scans| - 1], scans[|scans| - 1]);
      assert forall i :: 0 <= i < |init| ==> init[i] == scans[i];
      FlatKeeps(sha256, w, t, init);
      ScanKeepsTrue(sha256, w, ScanAll(sha256, t, init).0, s);
      FlatKeepsDigests(sha256, ScanAll(sha256, t, init).0, s);
    }
  }

  lemma NodeKeeps(sha256: Hash, w: World, k: Around, t: Table, name: string)
    requires Kept(w, t) && NoLeftovers(k, t) && Walkable(w, k)
    ensures var t1 := ScanNode(sha256, t, At(k, name)).0; Kept(w, t1) && NoLeftovers(k, t1)
  {
    NodeKeepsTrue(sha256, w, t, At(k, name));
  }

  lemma {:induction false} ScannedKeeps(
      sha256: Hash, w: World, k: Around, t: Table, registry: NodeId -> Verdict, nodes: seq<NodeId>)
    requires Kept(w, t) && NoLeftovers(k, t) && Walkable(w, k)
    ensures var t1 := Scanned(sha256, k, t, registry, nodes).0; Kept(w, t1) && NoLeftovers(k, t1)
  {
    if nodes != [] {
      ScannedKeeps(sha256, w, k, t, registry, nodes[..|nodes| - 1]);
      NodeKeeps(sha256, w, k, Scanned(sha256, k, t, registry, nodes[..|nodes| - 1]).0, nodes[|nodes| - 1].name);
    }
  }

  lemma {:induction false} SettledKeeps(sha256: Hash, w: World, k: Around, t: Table, registry: NodeId -> Verdict,
                                        edges: NodeId -> EdgeResult, roots: seq<NodeId>)
    requires Kept(w, t) && NoLeftovers(k, t) && Walkable(w, k)
    ensures var t1 := Settled(sha256, k, t, registry, edges, roots); Kept(w, t1) && NoLeftovers(k, t1)
  {
    if roots != [] {
      var (before, root) := (Settled(sha256, k, t, registry, edges, roots[..|roots| - 1]), roots[|roots| - 1]);
      SettledKeeps(sha256, w, k, t, registry, edges, roots[..|roots| - 1]);
      if edges(root).Edges? {
        ScannedKeeps(sha256, w, k, before, registry, edges(root).children);
      }
    }
  }

  /** Without a leftover a node has the verdict of an empty cache, and its root is fetched. */
  lemma HarmlessNode(sha256: Hash, w: World, k: Around, t: Table, name: string)
    requires Kept(w, t) && NoLeftovers(k, t) && Walkable(w, k)
    ensures ScanNode(sha256, t, At(k, name)).1 == ScanNode(sha256, map[], At(k, name)).1
    ensures Prefetched(t, At(k, name)) == Prefetched(map[], At(k, name))
  {
    var n := At(k, name);
    if Pins(k, name) && RowKey(k, name) in t {
      var key := RowKey(k, name);
      assert AttributedHit(t[key]).Some? && t[key].subtreeDigest.None?;
      assert RowTrue(w, key, t[key]);
    }
  }

  lemma {:induction false} SameDiscovered(e: NodeId -> EdgeResult, f: NodeId -> EdgeResult, roots: seq<NodeId>)
    requires forall n :: e(n) == f(n)
    ensures Discovered(e, roots) == Discovered(f, roots)
  {
    if roots != [] {
      SameDiscovered(e, f, roots[..|roots| - 1]);
    }
  }

  /** Without leftovers the walk is given the edges, the budget and the git verdicts of an
      empty cache. */
  lemma NoLeftoversIsFresh(sha256: Hash, w: World, k: Around, t: Table, registry: NodeId -> Verdict)
    requires Kept(w, t) && NoLeftovers(k, t) && Walkable(w, k)
    ensures forall n :: EdgesOver(k, t)(n) == EdgesOver(k, map[])(n)
    ensures BreachOver(k, EdgesOver(k, t)) == BreachOver(k, EdgesOver(k, map[]))
    ensures forall n: NodeId :: n.Git? ==>
              GivenParams(sha256, k, t, registry).scan(n) == ScanNode(sha256, map[], At(k, n.name)).1
  {
    forall n: NodeId ensures EdgesOver(k, t)(n) == EdgesOver(k, map[])(n) {
      HarmlessNode(sha256, w, k, t, n.name);
    }
    SameDiscovered(EdgesOver(k, t), EdgesOver(k, map[]), k.roots);
    var t1 := Settled(sha256, k, t, registry, EdgesOver(k, t), k.roots);
    SettledKeeps(sha256, w, k, t, registry, EdgesOver(k, t), k.roots);
    forall n: NodeId | n.Git?
      ensures GivenParams(sha256, k, t, registry).scan(n) == ScanNode(sha256, map[], At(k, n.name)).1
    {
      HarmlessNode(sha256, w, k, t1, n.name);
    }
  }

  // ------------------------------------------------------------------
  // With one
  // ------------------------------------------------------------------

  /** A row that the walk can read. */
  predicate Readable(k: Around, t: Table, name: string) {
    Pins(k, name) && At(k, name).db.lookupOk && UsableRow(t, RowKey(k, name))
  }

  /** One that is dropped before: its root is warm, so a leaf, and its digest is not that
      of no children. */
  predicate Dropped(sha256: Hash, k: Around, t: Table, name: string)
    requires Readable(k, t, name)
  {
    var digest := t[RowKey(k, name)].subtreeDigest;
    digest.Some? && digest.value != ChildrenDigest(sha256, []) && At(k, name).db.invalidateOk
  }

  predicate StillRead(sha256: Hash, k: Around, t: Table, name: string) {
    Readable(k, t, name) && !Dropped(sha256, k, t, name)
  }

  lemma ReadIsServed(k: Around, t: Table, name: string)
    requires Readable(k, t, name)
    ensures ServedNodeRow(t, At(k, name)) == Some(t[RowKey(k, name)])
  {
    GateIsEquivalence(t[RowKey(k, name)].contentHash, None, None);
  }

  lemma {:induction false} ScannedLeavesRead(
      sha256: Hash, k: Around, t: Table, registry: NodeId -> Verdict, nodes: seq<NodeId>, name: string)
    requires Readable(k, t, name)
    ensures Find(Scanned(sha256, k, t, registry, nodes).0, RowKey(k, name)) == Find(t, RowKey(k, name))
  {
    if nodes != [] {
      var t1 := Scanned(sha256, k, t, registry, nodes[..|nodes| - 1]).0;
      ScannedLeavesRead(sha256, k, t, registry, nodes[..|nodes| - 1], name);
      ReadDependsOnRow(k, t, t1, name);
      ReadIsServed(k, t1, name);
    }
  }

  lemma ReadDependsOnRow(k: Around, t: Table, t1: Table, name: string)
    requires Readable(k, t, name) && Find(t1, RowKey(k, name)) == Find(t, RowKey(k, name))
    ensures Readable(k, t1, name) && t1[RowKey(k, name)] == t[RowKey(k, name)]
  {
  }

  lemma {:induction false} SettledLeavesRead(sha256: Hash, k: Around, t: Table, registry: NodeId -> Verdict,
                                             edges: NodeId -> EdgeResult, roots: seq<NodeId>, name: string)
    requires StillRead(sha256, k, t, name)
    requires t[RowKey(k, name)].subtreeDigest.Some? ==> forall n: NodeId :: n.Git? && n.name == name ==> edges(n) == Edges([])
    ensures Find(Settled(sha256, k, t, registry, edges, roots), RowKey(k, name)) == Find(t, RowKey(k, name))
  {
    if roots != [] {
      var (before, root) := (Settled(sha256, k, t, registry, edges, roots[..|roots| - 1]), roots[|roots| - 1]);
      SettledLeavesRead(sha256, k, t, registry, edges, roots[..|roots| - 1], name);
      ReadDependsOnRow(k, t, before, name);
      RevalidatedLeavesRead(sha256, k, before, registry, edges, root, name);
    }
  }

  lemma RevalidatedLeavesRead(sha256: Hash, k: Around, t: Table, registry: NodeId -> Verdict,
                              edges: NodeId -> EdgeResult, root: NodeId, name: string)
    requires StillRead(sha256, k, t, name)
    requires t[RowKey(k, name)].subtreeDigest.Some? && root.Git? && root.name == name ==> edges(root) == Edges([])
    ensures Find(Revalidated(sha256, k, t, registry, edges, root), RowKey(k, name)) == Find(t, RowKey(k, name))
  {
    if edges(root).Edges? {
      ScannedLeavesRead(sha256, k, t, registry, edges(root).children, name);
    }
  }

  lemma StillReadDecides(sha256: Hash, k: Around, t: Table, registry: NodeId -> Verdict, n: NodeId)
    requires n.Git? && StillRead(sha256, k, t, n.name)
    ensures GivenParams(sha256, k, t, registry).scan(n) == VerdictFromString(t[RowKey(k, n.name)].result)
  {
    SettledLeavesRead(sha256, k, t, registry, EdgesOver(k, t), k.roots, n.name);
    var t1 := Settled(sha256, k, t, registry, EdgesOver(k, t), k.roots);
    ReadDependsOnRow(k, t, t1, n.name);
    ReadIsServed(k, t1, n.name);
  }

  /** The row is gone, or is one that the walk wrote itself. */
  predicate Renewed(sha256: Hash, k: Around, t: Table, name: string)
    requires Pins(k, name) && At(k, name).tree.Some?
  {
    RowKey(k, name) in t ==> t[RowKey(k, name)] == NodeScanner.NodeRow(sha256, At(k, name))
  }

  lemma {:induction false} ScannedStaysRenewed(
      sha256: Hash, k: Around, t: Table, registry: NodeId -> Verdict, nodes: seq<NodeId>, name: string)
    requires Pins(k, name) && At(k, name).tree.Some? && Renewed(sha256, k, t, name)
    ensures Renewed(sha256, k, Scanned(sha256, k, t, registry, nodes).0, name)
  {
    if nodes != [] {
      ScannedStaysRenewed(sha256, k, t, registry, nodes[..|nodes| - 1], name);
    }
  }

  lemma RevalidatedStaysRenewed(sha256: Hash, k: Around, t: Table, registry: NodeId -> Verdict,
                                edges: NodeId -> EdgeResult, root: NodeId, name: string)
    requires Pins(k, name) && At(k, name).tree.Some? && Renewed(sha256, k, t, name)
    ensures Renewed(sha256, k, Revalidated(sha256, k, t, registry, edges, root), name)
  {
    if edges(root).Edges? {
      ScannedStaysRenewed(sha256, k, t, registry, edges(root).children, name);
    }
  }

  ghost predicate HasRoot(roots: seq<NodeId>, name: string) {
    exists r :: r in roots && r.Git? && r.name == name
  }

  lemma DropsRow(sha256: Hash, k: Around, t: Table, registry: NodeId -> Verdict, edges: NodeId -> EdgeResult,
                 root: NodeId, name: string)
    requires Readable(k, t, name) && Dropped(sha256, k, t, name) && root.Git? && root.name == name && edges(root) == Edges([])
    ensures RowKey(k, name) !in Revalidated(sha256, k, t, registry, edges, root)
  {
    assert Scanned(sha256, k, t, registry, []) == (t, []);
  }

  /** Roots of other packages leave a readable row alone. */
  lemma OtherRootLeavesRow(sha256: Hash, k: Around, t: Table, registry: NodeId -> Verdict, edges: NodeId -> EdgeResult,
                           root: NodeId, name: string)
    requires Readable(k, t, name) && !(root.Git? && root.name == name)
    ensures Find(Revalidated(sha256, k, t, registry, edges, root), RowKey(k, name)) == Find(t, RowKey(k, name))
  {
    if edges(root).Edges? {
      ScannedLeavesRead(sha256, k, t, registry, edges(root).children, name);
    }
  }

  lemma {:induction false} SettledDrops(sha256: Hash, k: Around, t: Table, registry: NodeId -> Verdict,
                                        edges: NodeId -> EdgeResult, roots: seq<NodeId>, name: string)
    requires Readable(k, t, name) && Dropped(sha256, k, t, name) && At(k, name).tree.Some?
    requires forall n: NodeId :: n.Git? && n.name == name ==> edges(n) == Edges([])
    ensures var t1 := Settled(sha256, k, t, registry, edges, roots);
            if HasRoot(roots, name) then Renewed(sha256, k, t1, name) else Find(t1, RowKey(k, name)) == Find(t, RowKey(k, name))
  {
    if roots != [] {
      var (init, root) := (roots[..|roots| - 1], roots[|roots| - 1]);
      var before := Settled(sha256, k, t, registry, edges, init);
      SettledDrops(sha256, k, t, registry, edges, init, name);
      assert roots == init + [root];
      if HasRoot(init, name) {
        RevalidatedStaysRenewed(sha256, k, before, registry, edges, root, name);
        var r :| r in init && r.Git? && r.name == name;
        assert r in roots;
      } else {
        ReadDependsOnRow(k, t, before, name);
        if root.Git? && root.name == name {
          DropsRow(sha256, k, before, registry, edges, root, name);
        } else {
          OtherRootLeavesRow(sha256, k, before, registry, edges, root, name);
        }
      }
    }
  }

  lemma RenewedVerdict(sha256: Hash, k: Around, t: Table, name: string)
    requires Pins(k, name) && At(k, name).tree.Some? && Renewed(sha256, k, t, name)
    ensures ScanNode(sha256, t, At(k, name)).1 == VerdictFromString(AggregateResults(At(k, name).details).0)
  {
  }

  /** What the walk makes of a root's readable row, attributed or not: its verdict on the
      package is the row's, whatever the tree is, unless the row is dropped first, and a
      row with a digest makes the root a leaf either way. */
  lemma LeftoverDecides(sha256: Hash, k: Around, t: Table, registry: NodeId -> Verdict, n: NodeId)
    requires n.Git? && n in k.roots && Readable(k, t, n.name) && At(k, n.name).tree.Some?
    ensures GivenParams(sha256, k, t, registry).scan(n)
         == if Dropped(sha256, k, t, n.name) then VerdictFromString(AggregateResults(At(k, n.name).details).0)
            else VerdictFromString(t[RowKey(k, n.name)].result)
    ensures EdgesOver(k, t)(n) == if t[RowKey(k, n.name)].subtreeDigest.Some? then Edges([]) else k.manifest(n)
  {
    if Dropped(sha256, k, t, n.name) {
      SettledDrops(sha256, k, t, registry, EdgesOver(k, t), k.roots, n.name);
      assert HasRoot(k.roots, n.name);
      RenewedVerdict(sha256, k, Settled(sha256, k, t, registry, EdgesOver(k, t), k.roots), n.name);
    } else {
      StillReadDecides(sha256, k, t, registry, n);
    }
  }
}
