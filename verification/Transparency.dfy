/** The cache against its absence: what every scan and walk says after any run, compared
    with an empty cache, and when a refresh breaks it. */
module Transparency {
  import opened Verdicts
  import opened HashGate
  import opened VerdictCache
  import opened Framing
  import opened ScanLoop
  import opened NodeScanner
  import opened CacheRuns
  import opened FetchCounts

  /** What full scans say: the details for a registry key and normalized hash, and
      those of the pipeline over the tree at a pinned commit. */
  datatype World = World(registry: (Key, Option<string>) -> seq<PolicyDetail>, git: Key -> seq<PolicyDetail>)

  function Norm(hash: Option<string>): Option<string> {
    if hash.Some? then Some(NormalizeHashPrefix(hash.value)) else None
  }

  predicate NodeAgrees(w: World, n: GitNode) {
    n.target.Some? && ClassifyRef(n.target.value).Pinned? && n.tree.Some? ==>
      n.details == w.git(GitKey(n.name, n.target.value))
  }

  /** The event's environment answers as the world does. Metadata of Go modules
      carries no hash; the checksum database supplies it after the lookup. */
  predicate ScanAgrees(w: World, s: Scan) {
    match s
    case RegistryScan(_, _, _, _, _, _, _, _, _) =>
      s.fetched.Some? ==>
        s.details == w.registry(RegistryKey(s), Norm(RecordedHash(s)))
        && (s.registry.Go? ==> s.fetched.value.contentHash.None?)
    case GitScan(_, _, _, _, _, _, _) =>
      ClassifyRef(s.ref).Pinned? && s.tree.Some? ==> s.details == w.git(GitKey(s.name, s.ref))
  }

  predicate Agrees(w: World, e: Event) {
    match e
    case Flat(s) => ScanAgrees(w, s)
    case Node(n) => NodeAgrees(w, n)
    case Refresh(_, root, _, _) => NodeAgrees(w, root)
    case _ => true
  }

  ghost predicate AllAgree(w: World, events: seq<Event>) {
    forall i :: 0 <= i < |events| ==> Agrees(w, events[i])
  }

  /** An attributed row says what the world says. */
  predicate RowTrue(w: World, k: Key, row: Row) {
    row.depScanVersion.Some? && row.policies.Stored? ==>
      if k.registry == "git" then AggregateResults(row.policies.details).0 == AggregateResults(w.git(k)).0
      else row.contentHash.Some? ==> row.policies.details == w.registry(k, Norm(row.contentHash))
  }

  ghost predicate TableTrue(w: World, t: Table) {
    forall k :: k in t ==> RowTrue(w, k, t[k])
  }

  lemma PassIsNeutral(d: PolicyDetail, details: seq<PolicyDetail>)
    requires d.result == "pass"
    ensures AggregateResults([d] + details).0 == AggregateResults(details).0
  {
    var all := [d] + details;
    assert all[1..] == details;
    assert FirstWith(all, "block") == 1 + FirstWith(details, "block") by {
      assert "pass"[0] != "block"[0];
    }
    assert FirstWith(all, "warn") == 1 + FirstWith(details, "warn") by {
      assert "pass"[0] != "warn"[0];
    }
  }

  lemma PinnedGitVerdict(w: World, s: Scan)
    requires s.GitScan? && ScanAgrees(w, s) && ClassifyRef(s.ref).Pinned? && s.tree.Some?
    ensures GitVerdict(s) == AggregateResults(w.git(GitKey(s.name, s.ref))).0
  {
    PassIsNeutral(MutableRefDetail(s.severity, s.ref), s.details);
  }

  lemma ScanKeepsTrue(sha256: Hash, w: World, t: Table, s: Scan)
    requires TableTrue(w, t) && ScanAgrees(w, s)
    ensures TableTrue(w, ScanOne(sha256, t, s).0)
  {
    if s.RegistryScan? {
      RegistryIsNotGit(s.registry);
    } else if ClassifyRef(s.ref).Pinned? && s.tree.Some? {
      PinnedGitVerdict(w, s);
    }
  }

  lemma NodeKeepsTrue(sha256: Hash, w: World, t: Table, n: GitNode)
    requires TableTrue(w, t) && NodeAgrees(w, n)
    ensures TableTrue(w, ScanNode(sha256, t, n).0)
  {
  }

  lemma RefreshKeepsTrue(sha256: Hash, w: World, t: Table, ref: string, root: GitNode, digest: string, db: Db)
    requires TableTrue(w, t) && NodeAgrees(w, root)
    ensures TableTrue(w, RefreshDigest(sha256, t, ref, root, digest, db))
  {
    NodeKeepsTrue(sha256, w, t, root);
  }

  lemma EventKeepsTrue(sha256: Hash, w: World, t: Table, e: Event)
    requires TableTrue(w, t) && Agrees(w, e)
    ensures TableTrue(w, Apply(sha256, t, e))
  {
    match e {
      case Flat(s) => ScanKeepsTrue(sha256, w, t, s);
      case Node(n) => NodeKeepsTrue(sha256, w, t, n);
      case Refresh(ref, root, digest, db) => RefreshKeepsTrue(sha256, w, t, ref, root, digest, db);
      case _ =>
    }
  }

  lemma InitAgrees(w: World, events: seq<Event>)
    requires AllAgree(w, events) && events != []
    ensures AllAgree(w, events[..|events| - 1]) && Agrees(w, events[|events| - 1])
  {
    assert forall i :: 0 <= i < |events| - 1 ==> events[..|events| - 1][i] == events[i];
  }

  lemma {:induction false} ReachableIsTrue(sha256: Hash, w: World, t: Table, events: seq<Event>)
    requires Unattributed(t) && AllAgree(w, events)
    ensures TableTrue(w, RunEvents(sha256, t, events))
  {
    if events != [] {
      var (init, last) := (events[..|events| - 1], events[|events| - 1]);
      InitAgrees(w, events);
      ReachableIsTrue(sha256, w, t, init);
      EventKeepsTrue(sha256, w, RunEvents(sha256, t, init), last);
    }
  }

  /** The scan could be answered without the cache. */
  predicate Answerable(s: Scan) {
    s.RegistryScan? || s.tree.Some?
  }

  /** What the scan gives when nothing is served. */
  function FreshResult(s: Scan): CheckResult {
    if s.GitScan? then FreshGitResult(s)
    else if s.fetched.Some? then FreshRegistryResult(s)
    else CheckResult(s.pkg, "unknown", RegistryName(s.registry), None, "error", FetchError, [], [], None)
  }

  lemma EmptyCacheIsFresh(sha256: Hash, s: Scan)
    ensures ScanOne(sha256, map[], s).1 == FreshResult(s)
  {
  }

  predicate Served(t: Table, s: Scan) {
    if s.GitScan? then ServedGitRow(t, s).Some? else s.fetched.Some? && ServedRow(t, s).Some?
  }

  /** A fresh result as a hit shows it: a registry package under the name that was asked
      for and without findings, a git package with another sentence and perhaps other
      details; every other field is as it was. */
  predicate ShowsAs(s: Scan, anew: CheckResult, r: CheckResult) {
    r == if s.RegistryScan? then anew.(package := s.pkg, vulns := [], cache := r.cache)
         else anew.(reason := r.reason, policies := r.policies, cache := r.cache)
  }

  lemma ServedRegistryShows(sha256: Hash, w: World, t: Table, s: Scan)
    requires TableTrue(w, t) && ScanAgrees(w, s) && s.RegistryScan? && Served(t, s)
    ensures ShowsAs(s, FreshResult(s), ScanOne(sha256, t, s).1)
  {
    RegistryIsNotGit(s.registry);
    var hash := t[RegistryKey(s)].contentHash;
    assert Norm(hash) == Norm(s.fetched.value.contentHash);
  }

  lemma ServedGitShows(sha256: Hash, w: World, t: Table, s: Scan)
    requires TableTrue(w, t) && ScanAgrees(w, s) && s.GitScan? && s.tree.Some? && Served(t, s)
    ensures ShowsAs(s, FreshResult(s), ScanOne(sha256, t, s).1)
  {
    PinnedGitVerdict(w, s);
  }

  lemma ScanIsTransparent(sha256: Hash, w: World, t: Table, s: Scan)
    requires TableTrue(w, t) && ScanAgrees(w, s) && Answerable(s)
    ensures if Served(t, s) then ShowsAs(s, FreshResult(s), ScanOne(sha256, t, s).1)
            else ScanOne(sha256, t, s).1 == FreshResult(s)
  {
    if Served(t, s) {
      if s.RegistryScan? {
        ServedRegistryShows(sha256, w, t, s);
      } else {
        ServedGitShows(sha256, w, t, s);
      }
    }
  }

  /** If full scans are a function of the key and the recorded hash (for git, of the
      pinned commit), then after any run from a table without attributed rows, whatever
      was refreshed, forgotten or failed to be written, every answerable scan gives the
      result of an empty cache, field for field, except for what a hit shows. */
  lemma CacheIsTransparent(sha256: Hash, w: World, t0: Table, events: seq<Event>, s: Scan)
    requires Unattributed(t0) && AllAgree(w, events) && ScanAgrees(w, s) && Answerable(s)
    ensures var t := RunEvents(sha256, t0, events);
            var (r, anew) := (ScanOne(sha256, t, s).1, ScanOne(sha256, map[], s).1);
            if Served(t, s) then ShowsAs(s, anew, r) else r == anew
  {
    ReachableIsTrue(sha256, w, t0, events);
    EmptyCacheIsFresh(sha256, s);
    ScanIsTransparent(sha256, w, RunEvents(sha256, t0, events), s);
  }

  /** What a hit shows, exactly: apart from the mark of the cache, the result is that of
      an empty cache iff nothing was served, or a registry package was asked for as the
      registry spells it and has no findings. */
  lemma HitShowsIff(sha256: Hash, w: World, t: Table, s: Scan)
    requires TableTrue(w, t) && ScanAgrees(w, s) && Answerable(s)
    ensures var r := ScanOne(sha256, t, s).1;
            && (r.cache.Some? <==> Served(t, s))
            && (r.(cache := None) == ScanOne(sha256, map[], s).1 <==>
                  !Served(t, s) || (s.RegistryScan? && s.pkg == s.fetched.value.name && s.vulns == []))
  {
    EmptyCacheIsFresh(sha256, s);
    ScanIsTransparent(sha256, w, t, s);
  }

  function FreshAll(scans: seq<Scan>): (results: seq<CheckResult>)
    ensures |results| == |scans|
  {
    seq(|scans|, i requires 0 <= i < |scans| => FreshResult(scans[i]))
  }

  /** The table a flat run has reached before its i-th package. */
  function TableBefore(sha256: Hash, t: Table, scans: seq<Scan>, i: nat): Table
    requires i <= |scans|
  {
    ScanAll(sha256, t, scans[..i]).0
  }

  ghost predicate RunAgrees(w: World, scans: seq<Scan>) {
    forall i :: 0 <= i < |scans| ==> ScanAgrees(w, scans[i]) && Answerable(scans[i])
  }

  lemma {:induction false} RunKeepsTrue(sha256: Hash, w: World, t: Table, scans: seq<Scan>)
    requires TableTrue(w, t) && RunAgrees(w, scans)
    ensures TableTrue(w, ScanAll(sha256, t, scans).0)
  {
    if scans != [] {
      var init := scans[..|scans| - 1];
      assert forall i :: 0 <= i < |init| ==> init[i] == scans[i];
      RunKeepsTrue(sha256, w, t, init);
      ScanKeepsTrue(sha256, w, ScanAll(sha256, t, init).0, scans[|scans| - 1]);
    }
  }

  /** One result of a flat run, against the empty cache's. */
  lemma ResultIsTransparent(sha256: Hash, w: World, t: Table, scans: seq<Scan>, i: nat)
    requires TableTrue(w, t) && RunAgrees(w, scans) && i < |scans|
    ensures |ScanAll(sha256, t, scans).1| == |scans|
    ensures var r := ScanAll(sha256, t, scans).1[i];
            if Served(TableBefore(sha256, t, scans, i), scans[i]) then ShowsAs(scans[i], FreshAll(scans)[i], r)
            else r == FreshAll(scans)[i]
  {
    var before := scans[..i];
    assert forall j :: 0 <= j < i ==> before[j] == scans[j];
    RunKeepsTrue(sha256, w, t, before);
    ResultAt(sha256, t, scans, i);
    ScanIsTransparent(sha256, w, ScanAll(sha256, t, before).0, scans[i]);
  }

  /** A whole flat run over any reachable table: every result is the empty cache's up to
      what a hit shows, so the error and failure flags are the same. */
  lemma FlatRunIsTransparent(sha256: Hash, w: World, t: Table, scans: seq<Scan>)
    requires TableTrue(w, t) && RunAgrees(w, scans)
    ensures var results := ScanAll(sha256, t, scans).1;
            && |results| == |scans|
            && (forall i :: 0 <= i < |scans| ==>
                  if Served(TableBefore(sha256, t, scans, i), scans[i]) then ShowsAs(scans[i], FreshAll(scans)[i], results[i])
                  else results[i] == FreshAll(scans)[i])
            && ((exists r :: r in results && IsError(r)) <==> exists r :: r in FreshAll(scans) && IsError(r))
            && ((exists r :: r in results && IsFailure(r)) <==> exists r :: r in FreshAll(scans) && IsFailure(r))
  {
    ResultCount(sha256, t, scans);
    var (results, anew) := (ScanAll(sha256, t, scans).1, FreshAll(scans));
    forall i | 0 <= i < |scans|
      ensures if Served(TableBefore(sha256, t, scans, i), scans[i]) then ShowsAs(scans[i], anew[i], results[i])
              else results[i] == anew[i]
    {
      ResultIsTransparent(sha256, w, t, scans, i);
    }
    SameFlags(results, anew);
  }

  lemma SameFlags(a: seq<CheckResult>, b: seq<CheckResult>)
    requires |a| == |b| && forall i :: 0 <= i < |a| ==> a[i].result == b[i].result
    ensures (exists r :: r in a && IsError(r)) <==> exists r :: r in b && IsError(r)
    ensures (exists r :: r in a && IsFailure(r)) <==> exists r :: r in b && IsFailure(r)
  {
    forall i | 0 <= i < |a| ensures a[i] in a && b[i] in b && IsError(a[i]) == IsError(b[i]) && IsFailure(a[i]) == IsFailure(b[i]) {
    }
  }

  /** With the same transitive outcome, the exit code is that of an empty cache. */
  lemma FlatExitCodeIsTransparent(
      sha256: Hash, w: World, t: Table, scans: seq<Scan>, transitiveFailed: bool, output: Output)
    requires TableTrue(w, t) && RunAgrees(w, scans)
    ensures var (results, anew) := (ScanAll(sha256, t, scans).1, FreshAll(scans));
            ExitCode(exists r :: r in results && IsError(r),
                     transitiveFailed || exists r :: r in results && IsFailure(r), output)
            == ExitCode(exists r :: r in anew && IsError(r),
                        transitiveFailed || exists r :: r in anew && IsFailure(r), output)
  {
    FlatRunIsTransparent(sha256, w, t, scans);
  }

  /** Scanning twice saves the second scan iff the metadata hash is usable and is the
      hash that was recorded; Go metadata carries none, so Go scans are never saved. */
  lemma SecondScanIsServedIff(t: Table, s: Scan)
    requires s.RegistryScan? && s.fetched.Some? && AllOk(s.db) && ServedRow(t, s).None?
    ensures ServedRow(ScanRegistry(t, s).0, s).Some? <==> VerifyHash(RecordedHash(s), s.fetched.value.contentHash)
    ensures VerifyHash(RecordedHash(s), s.fetched.value.contentHash) <==>
              Usable(s.fetched.value.contentHash)
              && Norm(RecordedHash(s)) == Norm(s.fetched.value.contentHash)
  {
    var result, hash := AggregateResults(s.details).0, RecordedHash(s);
    GateIsEquivalence(hash, s.fetched.value.contentHash, None);
    if StoredHash(result, hash) != hash {
      Sha1Prefix(hash.value);
    }
  }

  lemma Sha1Prefix(hash: string)
    requires "sha1:" <= hash
    ensures IsSha1(hash)
  {
    assert Lower(hash[..4]) == "sha1";
    assert hash[4] == ':';
    Sha1Spelling(hash);
  }

  // ------------------------------------------------------------------
  // The walk's reader
  // ------------------------------------------------------------------

  /** The verdict of the pipeline over the tree at a pinned commit. */
  function Said(w: World, key: Key): Verdict {
    VerdictFromString(AggregateResults(w.git(key)).0)
  }

  predicate GitRowTrue(w: World, k: Key, row: Row) {
    k.registry == "git" && ClassifyRef(k.version).Pinned? && Usable(row.contentHash) ==>
      VerdictFromString(row.result) == Said(w, k)
  }

  /** Every git row that the walk can read, attributed or not, says what the world says. */
  ghost predicate GitTrue(w: World, t: Table) {
    forall k :: k in t ==> GitRowTrue(w, k, t[k])
  }

  /** A refresh whose root's name resolves to the ref being refreshed, and whose root is
      fetched or found; otherwise another commit's verdict, or the scan's fail-closed
      warn, is what gets written. */
  predicate RefreshSees(e: Event) {
    e.Refresh? ==> e.root.target == Some(e.ref) && (e.root.db.lookupOk || e.root.tree.Some?)
  }

  lemma VerdictOfString(v: Verdict)
    ensures VerdictFromString(VerdictString(v)) == v
  {
    assert "pass"[0] == 'p' && "warn"[0] == 'w' && "block"[0] == 'b';
  }

  lemma ServedNodeIsTrue(w: World, t: Table, n: GitNode)
    requires GitTrue(w, t) && n.target.Some? && ServedNodeRow(t, n).Some?
    ensures VerdictFromString(ServedNodeRow(t, n).value.result) == Said(w, GitKey(n.name, n.target.value))
  {
    GateIsEquivalence(ServedNodeRow(t, n).value.contentHash, None, None);
  }

  lemma NodeVerdictIsWorld(sha256: Hash, w: World, t: Table, n: GitNode)
    requires GitTrue(w, t) && NodeAgrees(w, n) && n.target.Some? && ClassifyRef(n.target.value).Pinned?
    requires n.tree.Some? || ServedNodeRow(t, n).Some?
    ensures ScanNode(sha256, t, n).1 == Said(w, GitKey(n.name, n.target.value))
  {
    if ServedNodeRow(t, n).Some? {
      ServedNodeIsTrue(w, t, n);
    }
  }

  lemma ScanKeepsGitTrue(sha256: Hash, w: World, t: Table, s: Scan)
    requires GitTrue(w, t) && ScanAgrees(w, s)
    ensures GitTrue(w, ScanOne(sha256, t, s).0)
  {
    if s.RegistryScan? {
      RegistryIsNotGit(s.registry);
    } else if ClassifyRef(s.ref).Pinned? && s.tree.Some? {
      PinnedGitVerdict(w, s);
    }
  }

  lemma ScanKeepsGitRows(sha256: Hash, w: World, t: Table, root: GitNode)
    requires GitTrue(w, t) && NodeAgrees(w, root)
    ensures GitTrue(w, ScanNode(sha256, t, root).0)
  {
  }

  /** What a refresh is told by its scan of the root: a warn for an unknown origin, the
      verdict of the commit it resolves to if that row can be read, a warn without a
      tree, and otherwise what the details of the fetched tree add up to. */
  function Told(w: World, t: Table, root: GitNode): Verdict {
    if root.target.None? then Warn
    else
      var key := GitKey(root.name, root.target.value);
      if ClassifyRef(root.target.value).Pinned? && root.db.lookupOk && UsableRow(t, key) then Said(w, key)
      else if root.tree.None? then Warn
      else VerdictFromString(AggregateResults(root.details).0)
  }

  lemma ScanTells(sha256: Hash, w: World, t: Table, root: GitNode)
    requires GitTrue(w, t)
    ensures ScanNode(sha256, t, root).1 == Told(w, t, root)
  {
    if root.target.Some? {
      var key := GitKey(root.name, root.target.value);
      if key in t {
        GateIsEquivalence(t[key].contentHash, None, None);
      }
      if ServedNodeRow(t, root).Some? {
        ServedNodeIsTrue(w, t, root);
      }
    }
  }

  /** One condition for every refresh, whatever its name resolves to: it falsifies a true
      row iff there is a row to refresh, it can be looked up and written, and what the
      scan told is not the verdict of the commit being refreshed. */
  lemma RefreshFalsifiesIff(sha256: Hash, w: World, t: Table, ref: string, root: GitNode, digest: string, db: Db)
    requires GitTrue(w, t) && NodeAgrees(w, root)
    ensures var key := GitKey(root.name, ref);
            !GitTrue(w, RefreshDigest(sha256, t, ref, root, digest, db)) <==>
              ClassifyRef(ref).Pinned? && UsableRow(t, key) && db.lookupOk && db.writeOk && Told(w, t, root) != Said(w, key)
  {
    var key := GitKey(root.name, ref);
    if ClassifyRef(ref).Pinned? {
      var (t1, verdict) := ScanNode(sha256, t, root);
      ScanTells(sha256, w, t, root);
      ScanKeepsGitRows(sha256, w, t, root);
      RefreshedRow(w, t1, root.name, ref, verdict, digest, root.now, db);
      if UsableRow(t1, key) != UsableRow(t, key) {
        ChangedRowIsTold(sha256, w, t, ref, root);
      }
    }
  }

  /** A row that the refresh's own scan has just written is refreshed with its verdict. */
  lemma ChangedRowIsTold(sha256: Hash, w: World, t: Table, ref: string, root: GitNode)
    requires GitTrue(w, t) && NodeAgrees(w, root)
    requires UsableRow(ScanNode(sha256, t, root).0, GitKey(root.name, ref)) != UsableRow(t, GitKey(root.name, ref))
    ensures Told(w, t, root) == Said(w, GitKey(root.name, ref)) && !UsableRow(t, GitKey(root.name, ref))
  {
    if root.target.Some? && root.tree.Some? {
      Sha256IsUsable(sha256, FramePairs(AsPairs(root.tree.value)));
    }
  }

  lemma RefreshedRow(w: World, t1: Table, name: string, ref: string, verdict: Verdict, digest: string, now: string, db: Db)
    requires GitTrue(w, t1) && ClassifyRef(ref).Pinned?
    ensures var key := GitKey(name, ref);
            !GitTrue(w, RefreshedTable(t1, name, ref, verdict, digest, now, db)) <==>
              UsableRow(t1, key) && db.lookupOk && db.writeOk && verdict != Said(w, key)
  {
    var key := GitKey(name, ref);
    var t2 := RefreshedTable(t1, name, ref, verdict, digest, now, db);
    VerdictOfString(verdict);
    if key in t1 && db.lookupOk && t1[key].contentHash.Some? && db.writeOk {
      assert t2[key].result == VerdictString(verdict) && t2[key].contentHash == t1[key].contentHash;
      assert forall k :: k in t2 && k != key ==> k in t1 && t2[k] == t1[k];
    }
  }

  lemma RefreshKeepsGitTrue(sha256: Hash, w: World, t: Table, ref: string, root: GitNode, digest: string, db: Db)
    requires GitTrue(w, t) && NodeAgrees(w, root) && root.target == Some(ref)
    requires root.db.lookupOk || root.tree.Some?
    ensures GitTrue(w, RefreshDigest(sha256, t, ref, root, digest, db))
  {
    RefreshFalsifiesIff(sha256, w, t, ref, root, digest, db);
  }

  lemma {:induction false} ReachableIsGitTrue(sha256: Hash, w: World, t: Table, events: seq<Event>)
    requires GitTrue(w, t) && AllAgree(w, events) && forall i :: 0 <= i < |events| ==> RefreshSees(events[i])
    ensures GitTrue(w, RunEvents(sha256, t, events))
  {
    if events != [] {
      var (init, e) := (events[..|events| - 1], events[|events| - 1]);
      var before := RunEvents(sha256, t, init);
      InitAgrees(w, events);
      assert forall i :: 0 <= i < |init| ==> init[i] == events[i];
      ReachableIsGitTrue(sha256, w, t, init);
      assert RefreshSees(e);
      match e {
        case Flat(s) => ScanKeepsGitTrue(sha256, w, before, s);
        case Node(_) =>
        case Prefetch(_) =>
        case Refresh(ref, root, digest, db) => RefreshKeepsGitTrue(sha256, w, before, ref, root, digest, db);
        case Forget(_) =>
        case ForgetAll =>
      }
    }
  }

  /** A pinned node with a fetchable tree gets the verdict of an empty cache. */
  ghost predicate NodeIsTransparent(sha256: Hash, t: Table, n: GitNode) {
    ScanNode(sha256, t, n).1 == ScanNode(sha256, map[], n).1
  }

  /** Runs and nodes for which transparency is asked. */
  ghost predicate Asked(w: World, events: seq<Event>, n: GitNode) {
    AllAgree(w, events) && (forall i :: 0 <= i < |events| ==> RefreshSees(events[i])) && NodeAgrees(w, n) && n.tree.Some?
  }

  lemma NodeScanIsTransparent(sha256: Hash, w: World, t0: Table, events: seq<Event>, n: GitNode)
    requires GitTrue(w, t0) && Asked(w, events, n)
    ensures NodeIsTransparent(sha256, RunEvents(sha256, t0, events), n)
  {
    ReachableIsGitTrue(sha256, w, t0, events);
    if n.target.Some? && ClassifyRef(n.target.value).Pinned? {
      NodeVerdictIsWorld(sha256, w, RunEvents(sha256, t0, events), n);
      NodeVerdictIsWorld(sha256, w, map[], n);
    }
  }

  lemma FalseRowIsServed(sha256: Hash, w: World, t0: Table, k: Key) returns (n: GitNode)
    requires k in t0 && !GitRowTrue(w, k, t0[k])
    ensures Asked(w, [], n) && !NodeIsTransparent(sha256, RunEvents(sha256, t0, []), n)
  {
    n := GitNode(k.name, Some(k.version), Some([]), w.git(k), "", Db(true, true, true));
    GateIsEquivalence(t0[k].contentHash, None, None);
    assert GitKey(k.name, k.version) == k;
  }

  /** The walk reads rows without asking for attribution, so which tables it may start
      from is a matter of their git rows: every run from a table is transparent to every
      node iff each readable row of a pinned commit says what that commit's tree does.
      Tables without git rows pass. */
  lemma NodeScanIsTransparentIff(sha256: Hash, w: World, t0: Table)
    ensures (forall events, n :: Asked(w, events, n) ==> NodeIsTransparent(sha256, RunEvents(sha256, t0, events), n))
       <==> GitTrue(w, t0)
  {
    if GitTrue(w, t0) {
      forall events, n | Asked(w, events, n) ensures NodeIsTransparent(sha256, RunEvents(sha256, t0, events), n) {
        NodeScanIsTransparent(sha256, w, t0, events, n);
      }
    } else {
      var k :| k in t0 && !GitRowTrue(w, k, t0[k]);
      var n := FalseRowIsServed(sha256, w, t0, k);
    }
  }

  lemma TwoEvents(sha256: Hash, t: Table, a: Event, b: Event)
    ensures RunEvents(sha256, t, [a, b]) == Apply(sha256, Apply(sha256, t, a), b)
  {
    assert [a, b][..1] == [a] && [a][..0] == [];
    assert RunEvents(sha256, t, []) == t && RunEvents(sha256, t, [a]) == Apply(sha256, t, a);
    assert RunEvents(sha256, t, [a, b]) == Apply(sha256, RunEvents(sha256, t, [a, b][..1]), b);
  }

  lemma BranchRefresh(sha256: Hash, t: Table, ref: string, root: GitNode, digest: string, db: Db)
    requires ClassifyRef(ref).Pinned? && GitKey(root.name, ref) in t && t[GitKey(root.name, ref)].contentHash.Some?
    requires root.target.Some? && ClassifyRef(root.target.value).Mutable? && root.tree.Some? && db.lookupOk && db.writeOk
    ensures var (key, t1) := (GitKey(root.name, ref), RefreshDigest(sha256, t, ref, root, digest, db));
            && key in t1 && t1[key].result == AggregateResults(root.details).0
            && t1[key].policies.Null? && t1[key].subtreeDigest == Some(digest)
  {
    AggregateIsVerdictString(root.details);
  }

  /** It happens on reachable tables: a pinned commit that passes, and a root of the same
      name at a branch that does not, leave the branch's verdict under the commit's key,
      where the walk will read it. */
  lemma BranchVerdictUnderPinnedKey(
      sha256: Hash, s: Scan, root: GitNode, digest: string, db: Db)
    requires s.GitScan? && ClassifyRef(s.ref).Pinned? && s.tree.Some? && s.db.lookupOk && s.db.writeOk
    requires root.name == s.name && root.target.Some? && ClassifyRef(root.target.value).Mutable? && root.tree.Some?
    requires db.lookupOk && db.writeOk
    ensures var (key, t) := (GitKey(s.name, s.ref), RunEvents(sha256, map[], [Flat(s), Refresh(s.ref, root, digest, db)]));
            && key in t && ClassifyRef(key.version).Pinned?
            && t[key].result == AggregateResults(root.details).0
            && t[key].policies.Null? && t[key].subtreeDigest == Some(digest)
  {
    var events := [Flat(s), Refresh(s.ref, root, digest, db)];
    TwoEvents(sha256, map[], events[0], events[1]);
    assert Apply(sha256, map[], events[0]) == map[GitKey(s.name, s.ref) := GitScanRow(sha256, s)];
    BranchRefresh(sha256, Apply(sha256, map[], events[0]), s.ref, root, digest, db);
  }

  function Zeros(): string {
    seq(40, _ => '0')
  }

  lemma ZerosArePinned()
    ensures ClassifyRef(Zeros()).Pinned? && ClassifyRef("main").Mutable?
  {
    assert |"main"| == 4;
  }

  function Blocked(): PolicyDetail {
    PolicyDetail("scripts", "block", None)
  }

  lemma BlockedBlocks()
    ensures AggregateResults([Blocked()]).0 == "block" && VerdictFromString("block") == Block
    ensures VerdictFromString(AggregateResults([]).0) == Pass
  {
    assert "block"[0] == 'b' && "pass"[0] == 'p';
  }

  const Ok := Db(true, true, true)

  /** A scan of the commit at which "foo" passes. */
  function FooScan(db: Db): Scan {
    GitScan("foo", Zeros(), Off, Some([]), [], "", db)
  }

  /** A run that scans the commit and refreshes it through a branch of "foo" that blocks. */
  function CrossedRun(digest: string): seq<Event> {
    [Flat(FooScan(Ok)), Refresh(Zeros(), GitNode("foo", Some("main"), Some([]), [Blocked()], "", Ok), digest, Ok)]
  }

  function AllPassing(): World {
    World((_, _) => [], _ => [])
  }

  lemma CrossedRunAgrees(digest: string)
    ensures AllAgree(AllPassing(), CrossedRun(digest))
  {
    ZerosArePinned();
  }

  lemma CrossedRunBlocks(sha256: Hash, digest: string)
    ensures var (t, key) := (RunEvents(sha256, map[], CrossedRun(digest)), GitKey("foo", Zeros()));
            UsableRow(t, key) && t[key].result == "block" && t[key].policies.Null? && t[key].subtreeDigest == Some(digest)
  {
    ZerosArePinned();
    BlockedBlocks();
    BranchVerdictUnderPinnedKey(sha256, FooScan(Ok), CrossedRun(digest)[1].root, digest, Ok);
    ReachableIsSound(sha256, map[], CrossedRun(digest));
  }

  /** The crossed run agrees with a world in which every tree passes, and its table blocks. */
  lemma RefreshCanFalsify(sha256: Hash, digest: string)
    ensures AllAgree(AllPassing(), CrossedRun(digest))
    ensures !GitTrue(AllPassing(), RunEvents(sha256, map[], CrossedRun(digest)))
  {
    CrossedRunAgrees(digest);
    CrossedRunBlocks(sha256, digest);
    ZerosArePinned();
    BlockedBlocks();
    assert !GitRowTrue(AllPassing(), GitKey("foo", Zeros()), RunEvents(sha256, map[], CrossedRun(digest))[GitKey("foo", Zeros())]);
  }
}
