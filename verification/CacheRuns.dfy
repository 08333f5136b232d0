/** Whole runs over the verdict cache: flat scans, node scans, prefetches, digest
    refreshes and deletions in any order, over any number of runs of the program. */
module CacheRuns {
  import opened Verdicts
  import opened HashGate
  import opened VerdictCache
  import opened Framing
  import opened ScanLoop
  import opened NodeScanner

  datatype Event =
    | Flat(s: Scan)
    | Node(n: GitNode)
    | Prefetch(n: GitNode)
    | Refresh(ref: string, root: GitNode, digest: string, db: Db)
    | Forget(key: Key)
    | ForgetAll

  function Apply(sha256: Hash, t: Table, e: Event): Table {
    match e
    case Flat(s) => ScanOne(sha256, t, s).0
    case Node(n) => ScanNode(sha256, t, n).0
    case Prefetch(_) => t
    case Refresh(ref, root, digest, db) => RefreshDigest(sha256, t, ref, root, digest, db)
    case Forget(key) => t - {key}
    case ForgetAll => map[]
  }

  function RunEvents(sha256: Hash, t: Table, events: seq<Event>): Table {
    if events == [] then t
    else Apply(sha256, RunEvents(sha256, t, events[..|events| - 1]), events[|events| - 1])
  }

  /** The rows of a file from before attribution: none names the version that wrote it.
      There may be git rows and subtree digests among them. */
  ghost predicate Unattributed(t: Table) {
    forall k :: k in t ==> t[k].depScanVersion.None?
  }

  // ------------------------------------------------------------------
  // The invariant of every reachable table
  // ------------------------------------------------------------------

  predicate IsVerdictString(s: string) {
    s == "pass" || s == "warn" || s == "block"
  }

  /** A refresh keeps the hash of the row it finds, which may be one from before. */
  predicate HashOk(t0: Table, k: Key, row: Row) {
    Usable(row.contentHash)
    || (row.subtreeDigest.Some? && k in t0 && row.contentHash == t0[k].contentHash && row.contentHash.Some?)
  }

  predicate GitRowOk(t0: Table, k: Key, row: Row) {
    && ClassifyRef(k.version).Pinned?
    && HashOk(t0, k, row)
    && IsVerdictString(row.result)
    && (row.policies.Stored? ==> AggregateResults(row.policies.details).0 == row.result)
    && (row.subtreeDigest.Some? ==> row.policies.Null?)
  }

  /** A row that this program wrote. */
  predicate RowOk(t0: Table, k: Key, row: Row) {
    && row.depScanVersion == Some(VERSION)
    && (k.registry == "git" <==> row.sourceKind == Some("git"))
    && (k.registry == "git" ==> GitRowOk(t0, k, row))
    && (k.registry != "git" ==> row.subtreeDigest.None?)
  }

  /** Every row is one from before, as it was, or one that this program wrote. */
  ghost predicate Sound(t0: Table, t: Table) {
    forall k :: k in t ==> (k in t0 && t[k] == t0[k]) || RowOk(t0, k, t[k])
  }

  lemma Sha256IsUsable(sha256: Hash, preimage: seq<Bytes.Byte>)
    ensures Usable(Some(Sha256String(sha256, preimage)))
  {
    var h := Sha256String(sha256, preimage);
    assert h[4] == '5';
    Sha1Spelling(h);
  }

  lemma AggregateIsVerdictString(details: seq<PolicyDetail>)
    ensures IsVerdictString(AggregateResults(details).0)
    ensures VerdictString(VerdictFromString(AggregateResults(details).0)) == AggregateResults(details).0
  {
  }

  lemma RegistryScanKeepsSound(t0: Table, t: Table, s: Scan)
    requires Sound(t0, t) && s.RegistryScan?
    ensures Sound(t0, ScanRegistry(t, s).0)
  {
    RegistryIsNotGit(s.registry);
  }

  lemma GitScanRowOk(sha256: Hash, t0: Table, s: Scan)
    requires s.GitScan? && ClassifyRef(s.ref).Pinned? && s.tree.Some?
    ensures RowOk(t0, GitKey(s.name, s.ref), GitScanRow(sha256, s))
  {
    Sha256IsUsable(sha256, FramePairs(AsPairs(s.tree.value)));
    AggregateIsVerdictString(GitDetails(s));
  }

  lemma ScanKeepsSound(sha256: Hash, t0: Table, t: Table, s: Scan)
    requires Sound(t0, t)
    ensures Sound(t0, ScanOne(sha256, t, s).0)
  {
    if s.RegistryScan? {
      RegistryScanKeepsSound(t0, t, s);
    } else if ClassifyRef(s.ref).Pinned? && s.tree.Some? {
      GitScanRowOk(sha256, t0, s);
    }
  }

  lemma NodeKeepsSound(sha256: Hash, t0: Table, t: Table, n: GitNode)
    requires Sound(t0, t)
    ensures Sound(t0, ScanNode(sha256, t, n).0)
  {
    if n.tree.Some? {
      Sha256IsUsable(sha256, FramePairs(AsPairs(n.tree.value)));
      AggregateIsVerdictString(n.details);
    }
  }

  lemma RefreshKeepsSound(sha256: Hash, t0: Table, t: Table, ref: string, root: GitNode, digest: string, db: Db)
    requires Sound(t0, t)
    ensures Sound(t0, RefreshDigest(sha256, t, ref, root, digest, db))
  {
    NodeKeepsSound(sha256, t0, t, root);
  }

  /** In every table any run reaches from any table, a row is one from before, as it was,
      or this program's: it is git-sourced iff its key says so, its key is then a pinned
      commit with a usable tree hash (or the hash of the row from before that it
      refreshed), its result is the aggregate of the details it stores, and a row with a
      subtree digest stores none. */
  lemma {:induction false} ReachableIsSound(sha256: Hash, t: Table, events: seq<Event>)
    ensures Sound(t, RunEvents(sha256, t, events))
  {
    if events != [] {
      var last := |events| - 1;
      ReachableIsSound(sha256, t, events[..last]);
      var before := RunEvents(sha256, t, events[..last]);
      match events[last] {
        case Flat(s) => ScanKeepsSound(sha256, t, before, s);
        case Node(n) => NodeKeepsSound(sha256, t, before, n);
        case Prefetch(_) =>
        case Refresh(ref, root, digest, db) => RefreshKeepsSound(sha256, t, before, ref, root, digest, db);
        case Forget(key) =>
        case ForgetAll =>
      }
    }
  }

  /** No row with a subtree digest can be served by the flat scan. */
  ghost predicate DigestsUnserved(t: Table) {
    forall k :: k in t && t[k].subtreeDigest.Some? ==> AttributedHit(t[k]).None?
  }

  lemma ReachableDigests(sha256: Hash, t0: Table, events: seq<Event>)
    requires Unattributed(t0)
    ensures DigestsUnserved(RunEvents(sha256, t0, events))
  {
    ReachableIsSound(sha256, t0, events);
  }

  // ------------------------------------------------------------------
  // Git rows: mutable refs and failed fetches
  // ------------------------------------------------------------------

  /** No run ever stores a row under a mutable ref: a row found there is one from before.
      And a mutable ref is scanned afresh, whatever the table holds. */
  lemma MutableRefsAreNeverCached(sha256: Hash, t0: Table, events: seq<Event>, s: Scan)
    requires s.GitScan? && ClassifyRef(s.ref).Mutable?
    ensures var (t, key) := (RunEvents(sha256, t0, events), GitKey(s.name, s.ref));
            && (key in t ==> key in t0 && t[key] == t0[key])
            && ScanGit(sha256, t, s) == (t, FreshGitResult(s))
  {
    ReachableIsSound(sha256, t0, events);
  }

  /** Without a tree nothing is written, and the answer is a stored verdict that is
      the aggregate of stored details, or a warn or block: never a fresh pass. */
  lemma FailedFetchFailsClosed(sha256: Hash, t: Table, s: Scan)
    requires s.GitScan? && s.tree.None?
    ensures var (t1, r) := ScanGit(sha256, t, s);
            t1 == t && (r.result == "pass" ==> ServedGitRow(t, s).Some? && t[GitKey(s.name, s.ref)].result == "pass")
  {
    assert "pass"[0] == 'p' && "warn"[0] == 'w' && "block"[0] == 'b';
  }

  // ------------------------------------------------------------------
  // Where a served registry verdict comes from
  // ------------------------------------------------------------------

  /** A registry scan that was not served and whose row was written. */
  predicate WritesRegistryRow(t: Table, e: Event, key: Key) {
    e.Flat? && e.s.RegistryScan? && e.s.fetched.Some? && RegistryKey(e.s) == key && ServedRow(t, e.s).None?
    && e.s.db.writeOk
  }

  /** Event `j` was a full scan of this key, and its row has stood unchanged since. */
  ghost predicate StandsSince(sha256: Hash, t: Table, events: seq<Event>, j: nat, key: Key) {
    && j < |events|
    && WritesRegistryRow(RunEvents(sha256, t, events[..j]), events[j], key)
    && forall m :: j < m <= |events| ==>
         Find(RunEvents(sha256, t, events[..m]), key) == Some(FullScanRow(events[j].s))
  }

  /** An event leaves a registry row alone, removes it, or rewrites it by a full scan. */
  lemma RegistryRowChanges(sha256: Hash, t: Table, e: Event, key: Key)
    requires key.registry != "git"
    ensures var t1 := Apply(sha256, t, e);
            key in t1 ==> if WritesRegistryRow(t, e, key) then t1[key] == FullScanRow(e.s) else key in t && t1[key] == t[key]
  {
  }

  lemma {:induction false} StandsOneMore(sha256: Hash, t: Table, events: seq<Event>, j: nat, key: Key)
    requires events != [] && StandsSince(sha256, t, events[..|events| - 1], j, key)
    requires Find(RunEvents(sha256, t, events), key)
          == Find(RunEvents(sha256, t, events[..|events| - 1]), key)
    ensures StandsSince(sha256, t, events, j, key)
  {
    var init := events[..|events| - 1];
    assert init[..j] == events[..j];
    assert events[..|events|] == events && init[..|init|] == init;
    forall m | j < m <= |events|
      ensures Find(RunEvents(sha256, t, events[..m]), key) == Some(FullScanRow(events[j].s))
    {
      if m < |events| {
        assert init[..m] == events[..m];
      } else {
        assert Find(RunEvents(sha256, t, init[..|init|]), key) == Some(FullScanRow(init[j].s));
      }
    }
  }

  /** Every registry row is either still the one the run started with, or the row of
      a full scan of its own key that has stood unchanged since. */
  lemma {:induction false} RegistryRowOrigin(sha256: Hash, t: Table, events: seq<Event>, key: Key)
    requires key.registry != "git" && key in RunEvents(sha256, t, events)
    ensures (exists j: nat :: StandsSince(sha256, t, events, j, key))
         || (key in t && RunEvents(sha256, t, events)[key] == t[key])
  {
    if events != [] {
      var last := |events| - 1;
      var init := events[..last];
      var before := RunEvents(sha256, t, init);
      RegistryRowChanges(sha256, before, events[last], key);
      if WritesRegistryRow(before, events[last], key) {
        assert events[..|events|] == events;
        assert StandsSince(sha256, t, events, last, key);
      } else {
        RegistryRowOrigin(sha256, t, init, key);
        if j: nat :| StandsSince(sha256, t, init, j, key) {
          StandsOneMore(sha256, t, events, j, key);
        }
      }
    }
  }

  /** What a served registry verdict owes to the full scan it repeats. */
  predicate Repeats(r: CheckResult, s: Scan, o: Scan)
    requires s.RegistryScan? && s.fetched.Some?
  {
    && o.RegistryScan? && o.fetched.Some? && RegistryKey(o) == RegistryKey(s)
    && r.policies == o.details
    && r.result == AggregateResults(o.details).0
    && r.cache == Some(Provenance(o.now, VERSION))
    && VerifyHash(RecordedHash(o), s.fetched.value.contentHash)
  }

  /** Every registry verdict served from the cache, in any run from a table without
      attributed rows, repeats the details, result and time of an earlier full scan of
      the same key, recorded under an equal hash that is neither empty nor SHA-1, and
      that scan's row has not been touched since. */
  lemma ServedVerdictHasProvenance(sha256: Hash, t0: Table, events: seq<Event>, s: Scan)
    requires Unattributed(t0) && s.RegistryScan? && s.fetched.Some?
    requires ServedRow(RunEvents(sha256, t0, events), s).Some?
    ensures exists j: nat :: StandsSince(sha256, t0, events, j, RegistryKey(s))
                        && Repeats(ScanRegistry(RunEvents(sha256, t0, events), s).1, s, events[j].s)
  {
    var t := RunEvents(sha256, t0, events);
    var key := RegistryKey(s);
    RegistryIsNotGit(s.registry);
    RegistryRowOrigin(sha256, t0, events, key);
    var j: nat :| StandsSince(sha256, t0, events, j, key);
    assert events[..|events|] == events;
    assert Find(RunEvents(sha256, t0, events[..|events|]), key) == Some(FullScanRow(events[j].s));
    FullScanRowRepeats(t, s, events[j].s);
  }

  lemma FullScanRowRepeats(t: Table, s: Scan, o: Scan)
    requires s.RegistryScan? && s.fetched.Some? && ServedRow(t, s).Some?
    requires o.RegistryScan? && o.fetched.Some? && RegistryKey(o) == RegistryKey(s)
    requires t[RegistryKey(s)] == FullScanRow(o)
    ensures Repeats(ScanRegistry(t, s).1, s, o)
  {
  }

  // ------------------------------------------------------------------
  // Where a served git verdict comes from
  // ------------------------------------------------------------------

  /** The row was written by a scan that fetched the tree of exactly this commit. */
  predicate ScannedAt(sha256: Hash, e: Event, key: Key, row: Row) {
    match e
    case Flat(s) => s.GitScan? && GitKey(s.name, s.ref) == key && s.tree.Some? && row == GitScanRow(sha256, s)
    case Node(n) => NodeScannedAt(sha256, n, key, row)
    case Refresh(_, root, _, _) => NodeScannedAt(sha256, root, key, row)
    case _ => false
  }

  predicate NodeScannedAt(sha256: Hash, n: GitNode, key: Key, row: Row) {
    n.target.Some? && GitKey(n.name, n.target.value) == key && n.tree.Some? && row == NodeRow(sha256, n)
  }

  lemma GitRowChanges(sha256: Hash, t: Table, e: Event, key: Key)
    requires key.registry == "git"
    ensures var t1 := Apply(sha256, t, e);
            key in t1 && t1[key].policies.Stored? ==> ScannedAt(sha256, e, key, t1[key]) || (key in t && t1[key] == t[key])
  {
    if e.Flat? && e.s.RegistryScan? {
      RegistryIsNotGit(e.s.registry);
    }
  }

  /** Every git row that stores details was written by a scan of the tree at its own
      commit, or is one from before; a verdict obtained elsewhere is only ever written
      without details. */
  lemma {:induction false} GitRowOrigin(sha256: Hash, t: Table, events: seq<Event>, key: Key)
    requires key.registry == "git"
    requires key in RunEvents(sha256, t, events) && RunEvents(sha256, t, events)[key].policies.Stored?
    ensures var row := RunEvents(sha256, t, events)[key];
            (key in t && row == t[key]) || exists j :: 0 <= j < |events| && ScannedAt(sha256, events[j], key, row)
  {
    if events != [] {
      var (init, last) := (events[..|events| - 1], |events| - 1);
      var (before, row) := (RunEvents(sha256, t, init), RunEvents(sha256, t, events)[key]);
      GitRowChanges(sha256, before, events[last], key);
      if !ScannedAt(sha256, events[last], key, row) {
        assert key in before && before[key] == row;
        GitRowOrigin(sha256, t, init, key);
        if !(key in t && row == t[key]) {
          var j :| 0 <= j < |init| && ScannedAt(sha256, init[j], key, row);
          assert events[j] == init[j];
        }
      }
    }
  }

  /** Every git verdict the flat scan serves is the aggregate of the details of an
      earlier scan of the tree at that very commit, never of a branch. */
  lemma ServedGitVerdictHasProvenance(sha256: Hash, t0: Table, events: seq<Event>, s: Scan)
    requires Unattributed(t0) && s.GitScan? && ServedGitRow(RunEvents(sha256, t0, events), s).Some?
    ensures var (key, t) := (GitKey(s.name, s.ref), RunEvents(sha256, t0, events));
            && key in t && ClassifyRef(s.ref).Pinned?
            && ScanGit(sha256, t, s).1.result == AggregateResults(ScanGit(sha256, t, s).1.policies).0 == t[key].result
            && exists j :: 0 <= j < |events| && ScannedAt(sha256, events[j], key, t[key])
  {
    GitRowOrigin(sha256, t0, events, GitKey(s.name, s.ref));
  }
}
