/** The transitive walk's reader and writer of git rows: one scan per node, and the
    refresh that binds a root's row to its children's verdicts. */
module NodeScanner {
  import opened Verdicts
  import opened VerdictCache
  import opened Framing
  import opened ScanLoop

  /** A git node with what its environment answers: the ref its name resolves to
      (if its origin is known), the fetched tree, and the pipeline's details. */
  datatype GitNode = GitNode(name: string, target: Option<string>, tree: Option<seq<File>>,
                             details: seq<PolicyDetail>, now: string, db: Db)

  /** A git row that the walk reuses. Unlike the flat scan, it asks for no attribution. */
  function ServedNodeRow(t: Table, n: GitNode): Option<Row>
    requires n.target.Some?
  {
    var row := Find(t, GitKey(n.name, n.target.value));
    if ClassifyRef(n.target.value).Pinned? && n.db.lookupOk && row.Some?
       && GitCacheHit(ClassifyRef(n.target.value), row, row.value.contentHash)
    then row else None
  }

  function NodeRow(sha256: Hash, n: GitNode): Row
    requires n.tree.Some?
  {
    GitRow(AggregateResults(n.details).0, n.now, Some(GitTreeHash(sha256, n.tree.value)), None, Stored(n.details))
  }

  function ScanNode(sha256: Hash, t: Table, n: GitNode): (Table, Verdict) {
    if n.target.None? then (t, Warn)
    else
      match ServedNodeRow(t, n)
      case Some(row) => (t, VerdictFromString(row.result))
      case None =>
        if n.tree.None? then (t, Warn)
        else
          (if ClassifyRef(n.target.value).Pinned? && n.db.writeOk
           then t[GitKey(n.name, n.target.value) := NodeRow(sha256, n)] else t,
           VerdictFromString(AggregateResults(n.details).0))
  }

  method RunNodeScan(sha256: Hash, cache: Cache, n: GitNode) returns (v: Verdict)
    modifies cache
    ensures (cache.table, v) == ScanNode(sha256, old(cache.table), n)
  {
    if n.target.None? { return Warn; }
    var ref := n.target.value;
    var kind := ClassifyRef(ref);
    if kind == Pinned && n.db.lookupOk {
      var row := cache.Lookup(n.name, ref, "git");
      if row.Some? && GitCacheHit(kind, row, row.value.contentHash) {
        return VerdictFromString(row.value.result);
      }
    }
    if n.tree.None? { return Warn; }
    var result, reason := Aggregate(n.details);
    if kind == Pinned && n.db.writeOk {
      var contentHash := ComputeGitTreeHash(sha256, n.tree.value);
      cache.InsertGit(n.name, ref, result, n.now, Some(contentHash), None, Stored(n.details));
    }
    return VerdictFromString(result);
  }

  /** One root's refresh: its row, if it has a content hash, is rewritten with the
      walk's verdict and the digest of its children, and without policy details. */
  function RefreshedTable(t: Table, name: string, ref: string, verdict: Verdict, digest: string, now: string,
                          db: Db): Table {
    var key := GitKey(name, ref);
    if ClassifyRef(ref).Pinned? && db.lookupOk && key in t && t[key].contentHash.Some? && db.writeOk
    then t[key := GitRow(VerdictString(verdict), now, t[key].contentHash, Some(digest), Null)] else t
  }

  /** The refresh of the row for `ref` scans the root again, wherever its name resolves
      to, and writes what that scan says. */
  function RefreshDigest(sha256: Hash, t: Table, ref: string, root: GitNode, digest: string, db: Db): Table {
    if ClassifyRef(ref).Pinned? then
      var (t1, verdict) := ScanNode(sha256, t, root);
      RefreshedTable(t1, root.name, ref, verdict, digest, root.now, db)
    else t
  }

  method RunRefreshDigest(sha256: Hash, cache: Cache, ref: string, root: GitNode, digest: string, db: Db)
    modifies cache
    ensures cache.table == RefreshDigest(sha256, old(cache.table), ref, root, digest, db)
  {
    if ClassifyRef(ref) != Pinned { return; }
    var verdict := RunNodeScan(sha256, cache, root);
    if db.lookupOk {
      var row := cache.Lookup(root.name, ref, "git");
      if row.Some? && row.value.contentHash.Some? && db.writeOk {
        cache.InsertGit(root.name, ref, VerdictString(verdict), root.now, row.value.contentHash, Some(digest), Null);
      }
    }
  }

  /** A root whose tree is not fetched again: a pinned ref whose row carries both a
      content hash and a subtree digest. */
  predicate WarmRoot(t: Table, name: string, ref: string) {
    var key := GitKey(name, ref);
    ClassifyRef(ref).Pinned? && key in t && t[key].contentHash.Some? && t[key].subtreeDigest.Some?
  }

  /** Before the walk every root that is not warm is fetched for its edges, whether or
      not its verdict is cached; nothing is written. */
  predicate Prefetched(t: Table, n: GitNode) {
    n.target.Some? && !(n.db.lookupOk && WarmRoot(t, n.name, n.target.value))
  }

  /** The trees of the roots that are fetched and can be; the others have no edges. */
  method PrefetchTrees(cache: Cache, roots: seq<GitNode>) returns (trees: seq<Option<seq<File>>>)
    ensures |trees| == |roots|
    ensures forall i :: 0 <= i < |roots| ==>
              trees[i] == if Prefetched(cache.table, roots[i]) then roots[i].tree else None
  {
    trees := [];
    for i := 0 to |roots|
      invariant |trees| == i
      invariant forall j :: 0 <= j < i ==>
                  trees[j] == if Prefetched(cache.table, roots[j]) then roots[j].tree else None
    {
      var n := roots[i];
      var tree := None;
      if n.target.Some? {
        var warm := false;
        if ClassifyRef(n.target.value) == Pinned && n.db.lookupOk {
          var row := cache.Lookup(n.name, n.target.value, "git");
          warm := row.Some? && row.value.contentHash.Some? && row.value.subtreeDigest.Some?;
        }
        if !warm { tree := n.tree; }
      }
      trees := trees + [tree];
    }
  }
}
