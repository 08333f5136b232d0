/** The flat scan: one step per package over the verdict cache, the results and
    flags it accumulates, the exit code, and the install gate behind it. */
module ScanLoop {
  import opened Verdicts
  import opened HashGate
  import opened VerdictCache
  import opened Framing

  datatype RegistryType = Npm | PyPI | Crates | Go

  function RegistryName(r: RegistryType): string {
    match r case Npm => "npm" case PyPI => "pypi" case Crates => "crates" case Go => "go"
  }

  lemma RegistryIsNotGit(r: RegistryType)
    ensures RegistryName(r) != "git"
  {
    assert |RegistryName(r)| == 3 ==> RegistryName(r)[0] == 'n';
  }

  datatype MutableRefSeverity = WarnMutable | BlockMutable | Off

  /** The mutable-ref policy, which looks at nothing but the ref. */
  function MutableRefResult(severity: MutableRefSeverity, ref: string): PolicyResult {
    if ClassifyRef(ref).Pinned? || severity.Off? then PolicyPass
    else if severity.WarnMutable? then PolicyWarn("mutable git ref") else PolicyBlock("mutable git ref")
  }

  function MutableRefDetail(severity: MutableRefSeverity, ref: string): PolicyDetail {
    FromResult("mutable_ref", MutableRefResult(severity, ref))
  }

  /** Registry metadata, as fetched before the cache is consulted. */
  datatype Meta = Meta(name: string, version: string, contentHash: Option<string>, ageHours: Option<int>)

  /** Which database operations succeed during one step. */
  datatype Db = Db(lookupOk: bool, invalidateOk: bool, writeOk: bool)

  /** One package, with what its environment will answer if asked: the fetch, the
      Go checksum-database hash, and the details and vulnerability findings a full scan
      would produce. */
  datatype Scan =
    | RegistryScan(pkg: string, registry: RegistryType, fetched: Option<Meta>, sumdbHash: Option<string>,
                   details: seq<PolicyDetail>, vulns: seq<string>, identity: Option<string>, now: string, db: Db)
    | GitScan(name: string, ref: string, severity: MutableRefSeverity, tree: Option<seq<File>>,
              details: seq<PolicyDetail>, now: string, db: Db)

  /** What a result's reason is made of: the aggregate's message, a fetch error, or one
      of the three sentences about a git dependency around its message. */
  datatype Reason =
    | Plain(message: Option<string>)
    | FetchError
    | GitCached(message: Option<string>)
    | GitScanned(files: nat, message: Option<string>)
    | GitUnfetched(message: Option<string>)

  datatype CheckResult = CheckResult(
    package: string,
    version: string,
    registry: string,
    ageHours: Option<int>,
    result: string,
    reason: Reason,
    policies: seq<PolicyDetail>,
    vulns: seq<string>,
    cache: Option<Provenance>)

  // ------------------------------------------------------------------
  // Registry packages
  // ------------------------------------------------------------------

  /** The hash that is scanned and recorded: for Go the checksum database replaces
      the (absent) metadata hash, after the cache lookup. */
  function RecordedHash(s: Scan): Option<string>
    requires s.RegistryScan? && s.fetched.Some?
  {
    if s.registry.Go? && s.sumdbHash.Some? then s.sumdbHash else s.fetched.value.contentHash
  }

  /** A passing or warning verdict never stores a `sha1:` hash. */
  function StoredHash(result: string, hash: Option<string>): Option<string> {
    if (result == "pass" || result == "warn") && hash.Some? && "sha1:" <= hash.value then None else hash
  }

  function RegistryKey(s: Scan): Key
    requires s.RegistryScan? && s.fetched.Some?
  {
    Key(s.pkg, s.fetched.value.version, RegistryName(s.registry))
  }

  /** A row that may be served for this scan. */
  function ServedRow(t: Table, s: Scan): Option<(seq<PolicyDetail>, Provenance)>
    requires s.RegistryScan? && s.fetched.Some?
  {
    var key := RegistryKey(s);
    if s.db.lookupOk && key in t && VerifyHash(t[key].contentHash, s.fetched.value.contentHash)
    then AttributedHit(t[key]) else None
  }

  /** The table after an unserved lookup: a row with another, non-`sha1:` hash is
      dropped; an unattributed or `sha1:` row stays until it is overwritten. */
  function AfterMiss(t: Table, s: Scan): Table
    requires s.RegistryScan? && s.fetched.Some?
  {
    var key := RegistryKey(s);
    if s.db.lookupOk && key in t && !VerifyHash(t[key].contentHash, s.fetched.value.contentHash)
       && !(t[key].contentHash.Some? && "sha1:" <= t[key].contentHash.value) && s.db.invalidateOk
    then t - {key} else t
  }

  function FullScanRow(s: Scan): Row
    requires s.RegistryScan? && s.fetched.Some?
  {
    var result := AggregateResults(s.details).0;
    RegistryRow(result, s.now, StoredHash(result, RecordedHash(s)), s.identity, None, Stored(s.details))
  }

  /** The result of a full scan: named as the registry spells it, with its findings. */
  function FreshRegistryResult(s: Scan): CheckResult
    requires s.RegistryScan? && s.fetched.Some?
  {
    var (meta, (result, message)) := (s.fetched.value, AggregateResults(s.details));
    CheckResult(meta.name, meta.version, RegistryName(s.registry), meta.ageHours, result, Plain(message),
                s.details, s.vulns, None)
  }

  /** The result of a hit: named as it was asked for, without findings. */
  function ServedRegistryResult(s: Scan, details: seq<PolicyDetail>, provenance: Provenance): CheckResult
    requires s.RegistryScan? && s.fetched.Some?
  {
    var (meta, (result, message)) := (s.fetched.value, AggregateResults(details));
    CheckResult(s.pkg, meta.version, RegistryName(s.registry), meta.ageHours, result, Plain(message),
                details, [], Some(provenance))
  }

  function ScanRegistry(t: Table, s: Scan): (Table, CheckResult)
    requires s.RegistryScan?
  {
    if s.fetched.None? then
      (t, CheckResult(s.pkg, "unknown", RegistryName(s.registry), None, "error", FetchError, [], [], None))
    else
      match ServedRow(t, s)
      case Some((details, provenance)) => (t, ServedRegistryResult(s, details, provenance))
      case None =>
        var t1 := AfterMiss(t, s);
        (if s.db.writeOk then t1[RegistryKey(s) := FullScanRow(s)] else t1, FreshRegistryResult(s))
  }

  // ------------------------------------------------------------------
  // Git packages
  // ------------------------------------------------------------------

  function GitKey(name: string, ref: string): Key {
    Key(name, ref, "git")
  }

  function ServedGitRow(t: Table, s: Scan): Option<(seq<PolicyDetail>, Provenance)>
    requires s.GitScan?
  {
    var row := Find(t, GitKey(s.name, s.ref));
    if ClassifyRef(s.ref).Pinned? && s.db.lookupOk && row.Some?
       && GitCacheHit(ClassifyRef(s.ref), row, row.value.contentHash)
    then AttributedHit(row.value) else None
  }

  function GitDetails(s: Scan): seq<PolicyDetail>
    requires s.GitScan?
  {
    [MutableRefDetail(s.severity, s.ref)] + (if s.tree.Some? then s.details else [])
  }

  /** A failed fetch is never a pass: it blocks if the ref policy blocks, else warns. */
  function GitVerdict(s: Scan): string
    requires s.GitScan?
  {
    if s.tree.Some? then AggregateResults(GitDetails(s)).0
    else if MutableRefResult(s.severity, s.ref).PolicyBlock? then "block" else "warn"
  }

  function GitReason(s: Scan): Reason
    requires s.GitScan?
  {
    if s.tree.Some? then GitScanned(|s.tree.value|, AggregateResults(GitDetails(s)).1)
    else
      var ref := MutableRefResult(s.severity, s.ref);
      GitUnfetched(if ref.PolicyBlock? then Some(ref.msg) else None)
  }

  function GitScanRow(sha256: Hash, s: Scan): Row
    requires s.GitScan? && s.tree.Some?
  {
    GitRow(GitVerdict(s), s.now, Some(GitTreeHash(sha256, s.tree.value)), None, Stored(GitDetails(s)))
  }

  function FreshGitResult(s: Scan): CheckResult
    requires s.GitScan?
  {
    CheckResult(s.name, s.ref, "git", None, GitVerdict(s), GitReason(s), GitDetails(s), [], None)
  }

  function ServedGitResult(s: Scan, details: seq<PolicyDetail>, provenance: Provenance): CheckResult
    requires s.GitScan?
  {
    var (result, message) := AggregateResults(details);
    CheckResult(s.name, s.ref, "git", None, result, GitCached(message), details, [], Some(provenance))
  }

  function ScanGit(sha256: Hash, t: Table, s: Scan): (Table, CheckResult)
    requires s.GitScan?
  {
    match ServedGitRow(t, s)
    case Some((details, provenance)) => (t, ServedGitResult(s, details, provenance))
    case None =>
      (if ClassifyRef(s.ref).Pinned? && s.tree.Some? && s.db.writeOk
       then t[GitKey(s.name, s.ref) := GitScanRow(sha256, s)] else t,
       FreshGitResult(s))
  }

  function ScanOne(sha256: Hash, t: Table, s: Scan): (Table, CheckResult) {
    if s.RegistryScan? then ScanRegistry(t, s) else ScanGit(sha256, t, s)
  }

  // ------------------------------------------------------------------
  // The two arms as the source runs them
  // ------------------------------------------------------------------

  /** The lookup after a successful fetch: a row that passes both gates is served; one
      with another hash is dropped, unless it is a `sha1:` row. */
  method ConsultCache(cache: Cache, s: Scan) returns (hit: Option<(seq<PolicyDetail>, Provenance)>)
    requires s.RegistryScan? && s.fetched.Some?
    modifies cache
    ensures hit == ServedRow(old(cache.table), s)
    ensures cache.table == if hit.Some? then old(cache.table) else AfterMiss(old(cache.table), s)
  {
    var meta, registry := s.fetched.value, RegistryName(s.registry);
    hit := None;
    if s.db.lookupOk {
      var row := cache.Lookup(s.pkg, meta.version, registry);
      if row.Some? {
        if VerifyHash(row.value.contentHash, meta.contentHash) {
          // An unattributed row stays: the full scan upgrades it in place.
          hit := AttributedHit(row.value);
        } else {
          var isSha1Bypass := row.value.contentHash.Some? && "sha1:" <= row.value.contentHash.value;
          if !isSha1Bypass && s.db.invalidateOk {
            cache.Invalidate(s.pkg, meta.version, registry);
          }
        }
      }
    }
  }

  method RunRegistryScan(cache: Cache, s: Scan) returns (r: CheckResult)
    requires s.RegistryScan?
    modifies cache
    ensures (cache.table, r) == ScanRegistry(old(cache.table), s)
  {
    var registry := RegistryName(s.registry);
    if s.fetched.Some? {
      var hit := ConsultCache(cache, s);
      if hit.Some? {
        var (details, provenance) := hit.value;
        var result, message := Aggregate(details);
        return CheckResult(s.pkg, s.fetched.value.version, registry, s.fetched.value.ageHours, result, Plain(message),
                           details, [], Some(provenance));
      }
    }
    if s.fetched.None? {
      return CheckResult(s.pkg, "unknown", registry, None, "error", FetchError, [], [], None);
    }
    var meta := s.fetched.value;
    var contentHash := meta.contentHash;
    if s.registry.Go? && s.sumdbHash.Some? {
      contentHash := s.sumdbHash;
    }
    var result, message := Aggregate(s.details);
    var cacheHash := contentHash;
    if (result == "pass" || result == "warn") && contentHash.Some? && "sha1:" <= contentHash.value {
      cacheHash := None;
    }
    if s.db.writeOk {
      cache.Insert(s.pkg, meta.version, registry, result, s.now, cacheHash, s.identity, None, Stored(s.details));
    }
    return CheckResult(meta.name, meta.version, registry, meta.ageHours, result, Plain(message), s.details, s.vulns,
                       None);
  }

  method RunGitScan(sha256: Hash, cache: Cache, s: Scan) returns (r: CheckResult)
    requires s.GitScan?
    modifies cache
    ensures (cache.table, r) == ScanGit(sha256, old(cache.table), s)
  {
    var mutableRef := MutableRefResult(s.severity, s.ref);
    var kind := ClassifyRef(s.ref);
    var hit: Option<(seq<PolicyDetail>, Provenance)> := None;
    if kind == Pinned && s.db.lookupOk {
      var row := cache.Lookup(s.name, s.ref, "git");
      var cachedHash := if row.Some? then row.value.contentHash else None;
      if GitCacheHit(kind, row, cachedHash) {
        hit := AttributedHit(row.value);
      }
    }
    if hit.Some? {
      var (details, provenance) := hit.value;
      var result, reason := Aggregate(details);
      return CheckResult(s.name, s.ref, "git", None, result, GitCached(reason), details, [], Some(provenance));
    }
    var details := [FromResult("mutable_ref", mutableRef)];
    var result, reason;
    match s.tree {
      case Some(files) =>
        details := details + s.details;
        var message;
        result, message := Aggregate(details);
        reason := GitScanned(|files|, message);
      case None =>
        if mutableRef.PolicyBlock? {
          result, reason := "block", GitUnfetched(Some(mutableRef.msg));
        } else {
          result, reason := "warn", GitUnfetched(None);
        }
        assert details + [] == details;
    }
    if kind == Pinned && s.tree.Some? {
      var contentHash := ComputeGitTreeHash(sha256, s.tree.value);
      if s.db.writeOk {
        cache.InsertGit(s.name, s.ref, result, s.now, Some(contentHash), None, Stored(details));
      }
    }
    return CheckResult(s.name, s.ref, "git", None, result, reason, details, [], None);
  }

  // ------------------------------------------------------------------
  // The loop
  // ------------------------------------------------------------------

  /** The table and results after scanning `scans` in order. */
  function ScanAll(sha256: Hash, t: Table, scans: seq<Scan>): (Table, seq<CheckResult>) {
    if scans == [] then (t, [])
    else
      var (t1, results) := ScanAll(sha256, t, scans[..|scans| - 1]);
      var (t2, r) := ScanOne(sha256, t1, scans[|scans| - 1]);
      (t2, results + [r])
  }

  predicate IsError(r: CheckResult) { r.result == "error" }

  predicate IsFailure(r: CheckResult) { r.result == "warn" || r.result == "block" }

  method RunLoop(sha256: Hash, cache: Cache, scans: seq<Scan>)
    returns (results: seq<CheckResult>, hasFailure: bool, hasError: bool)
    modifies cache
    ensures (cache.table, results) == ScanAll(sha256, old(cache.table), scans)
    ensures hasError <==> exists r :: r in results && IsError(r)
    ensures hasFailure <==> exists r :: r in results && IsFailure(r)
  {
    results, hasFailure, hasError := [], false, false;
    ghost var start := cache.table;
    for i := 0 to |scans|
      invariant (cache.table, results) == ScanAll(sha256, start, scans[..i])
      invariant hasError <==> exists r :: r in results && IsError(r)
      invariant hasFailure <==> exists r :: r in results && IsFailure(r)
    {
      assert scans[..i + 1][..i] == scans[..i];
      ghost var before := results;
      ResultVocabulary(sha256, cache.table, scans[i]);
      var r;
      if scans[i].GitScan? {
        r := RunGitScan(sha256, cache, scans[i]);
        if r.result == "warn" || r.result == "block" { hasFailure := true; }
      } else {
        r := RunRegistryScan(cache, scans[i]);
        if scans[i].fetched.None? {
          hasError := true;
        } else if r.result == "block" || r.result == "warn" {
          hasFailure := true;
        }
      }
      results := results + [r];
      assert results[|before|] == r;
      assert forall q :: q in results <==> q in before || q == r;
    }
    assert scans[..|scans|] == scans;
  }

  /** A result is one of the three verdicts, or an error: exactly when the registry
      could not be reached. */
  lemma ResultVocabulary(sha256: Hash, t: Table, s: Scan)
    ensures var r := ScanOne(sha256, t, s).1;
            && (IsError(r) <==> s.RegistryScan? && s.fetched.None?)
            && !(IsError(r) && IsFailure(r))
            && (IsError(r) || IsFailure(r) || r.result == "pass")
  {
    assert "pass"[0] == 'p' && "warn"[0] == 'w' && "block"[0] == 'b' && "error"[0] == 'e';
  }

  lemma LastResult(sha256: Hash, t: Table, scans: seq<Scan>)
    requires scans != []
    ensures var (init, last) := (scans[..|scans| - 1], scans[|scans| - 1]);
            ScanAll(sha256, t, scans).1
            == ScanAll(sha256, t, init).1 + [ScanOne(sha256, ScanAll(sha256, t, init).0, last).1]
  {
  }

  lemma {:induction false} ResultAt(sha256: Hash, t: Table, scans: seq<Scan>, i: nat)
    requires i < |scans|
    ensures |ScanAll(sha256, t, scans).1| == |scans|
    ensures ScanAll(sha256, t, scans).1[i] == ScanOne(sha256, ScanAll(sha256, t, scans[..i]).0, scans[i]).1
    decreases |scans|
  {
    var init := scans[..|scans| - 1];
    ResultCount(sha256, t, init);
    LastResult(sha256, t, scans);
    if i < |init| {
      assert init[..i] == scans[..i];
      ResultAt(sha256, t, init, i);
    }
  }

  lemma {:induction false} ResultCount(sha256: Hash, t: Table, scans: seq<Scan>)
    ensures |ScanAll(sha256, t, scans).1| == |scans|
  {
    if scans != [] {
      ResultCount(sha256, t, scans[..|scans| - 1]);
    }
  }

  /** One result per package, in order, whichever branch each package takes: its
      registry and, when the fetch succeeded, its resolved version; and it is an
      error exactly when the registry could not be reached. */
  lemma OneResultPerPackage(sha256: Hash, t: Table, scans: seq<Scan>)
    ensures |ScanAll(sha256, t, scans).1| == |scans|
    ensures forall i :: 0 <= i < |scans| ==> var (s, r) := (scans[i], ScanAll(sha256, t, scans).1[i]);
              && (IsError(r) <==> s.RegistryScan? && s.fetched.None?)
              && r.registry == (if s.GitScan? then "git" else RegistryName(s.registry))
              && (s.GitScan? ==> r.package == s.name && r.version == s.ref)
              && (s.RegistryScan? && s.fetched.Some? ==>
                    (r.package == s.pkg || r.package == s.fetched.value.name) && r.version == s.fetched.value.version)
  {
    ResultCount(sha256, t, scans);
    forall i | 0 <= i < |scans|
      ensures var (s, r) := (scans[i], ScanAll(sha256, t, scans).1[i]);
              && (IsError(r) <==> s.RegistryScan? && s.fetched.None?)
              && r.registry == (if s.GitScan? then "git" else RegistryName(s.registry))
              && (s.GitScan? ==> r.package == s.name && r.version == s.ref)
              && (s.RegistryScan? && s.fetched.Some? ==>
                    (r.package == s.pkg || r.package == s.fetched.value.name) && r.version == s.fetched.value.version)
    {
      ResultAt(sha256, t, scans, i);
      ResultVocabulary(sha256, ScanAll(sha256, t, scans[..i]).0, scans[i]);
    }
  }

  predicate Unreachable(s: Scan) {
    s.RegistryScan? && s.fetched.None?
  }

  lemma ErrorsAreUnreachable(sha256: Hash, t: Table, scans: seq<Scan>)
    ensures (exists r :: r in ScanAll(sha256, t, scans).1 && IsError(r)) <==> exists s :: s in scans && Unreachable(s)
  {
    var results := ScanAll(sha256, t, scans).1;
    ResultCount(sha256, t, scans);
    forall i | 0 <= i < |scans| ensures IsError(results[i]) <==> Unreachable(scans[i]) {
      ResultAt(sha256, t, scans, i);
      ResultVocabulary(sha256, ScanAll(sha256, t, scans[..i]).0, scans[i]);
    }
    if r :| r in results && IsError(r) {
      var i :| 0 <= i < |results| && results[i] == r;
      assert scans[i] in scans && Unreachable(scans[i]);
    }
    if s :| s in scans && Unreachable(s) {
      var i :| 0 <= i < |scans| && scans[i] == s;
      assert results[i] in results && IsError(results[i]);
    }
  }

  lemma ResultsInVocabulary(sha256: Hash, t: Table, scans: seq<Scan>)
    ensures forall r :: r in ScanAll(sha256, t, scans).1 ==> (r.result == "pass" <==> !IsError(r) && !IsFailure(r))
  {
    var results := ScanAll(sha256, t, scans).1;
    ResultCount(sha256, t, scans);
    forall i | 0 <= i < |scans| ensures results[i].result == "pass" <==> !IsError(results[i]) && !IsFailure(results[i]) {
      ResultAt(sha256, t, scans, i);
      ResultVocabulary(sha256, ScanAll(sha256, t, scans[..i]).0, scans[i]);
      assert "pass"[0] == 'p' && "warn"[0] == 'w' && "block"[0] == 'b' && "error"[0] == 'e';
    }
  }

  // ------------------------------------------------------------------
  // Exit code and install gate
  // ------------------------------------------------------------------

  /** The output stage: emitted, or no signing key was available offline, or failed. */
  datatype Output = Emitted | NoOfflineKey | Failed

  /** `None` is an error return. */
  function ExitCode(hasError: bool, hasFailure: bool, output: Output): Option<int> {
    match output
    case Failed => None
    case NoOfflineKey => Some(2)
    case Emitted => if hasError then Some(2) else if hasFailure then Some(1) else Some(0)
  }

  method RunCheck(sha256: Hash, cache: Cache, scans: seq<Scan>, transitiveFailed: bool, output: Output)
    returns (code: Option<int>, results: seq<CheckResult>)
    modifies cache
    ensures (cache.table, results) == ScanAll(sha256, old(cache.table), scans)
    ensures code == ExitCode(exists r :: r in results && IsError(r),
                             transitiveFailed || exists r :: r in results && IsFailure(r), output)
  {
    var hasFailure, hasError;
    results, hasFailure, hasError := RunLoop(sha256, cache, scans);
    if transitiveFailed { hasFailure := true; }
    match output {
      case Failed => return None, results;
      case NoOfflineKey => return Some(2), results;
      case Emitted =>
    }
    if hasError { return Some(2), results; }
    if hasFailure { return Some(1), results; }
    return Some(0), results;
  }

  datatype Install = Refused(code: int) | Aborted | Started(managerCode: int)

  /** The gate in front of the package manager; `manager` is its exit code. */
  method RunInstall(sha256: Hash, cache: Cache, namesValid: bool, scans: seq<Scan>, transitiveFailed: bool,
                    output: Output, force: bool, manager: int)
    returns (outcome: Install, ghost results: seq<CheckResult>)
    modifies cache
    ensures results == if namesValid then ScanAll(sha256, old(cache.table), scans).1 else []
    ensures !namesValid ==> outcome == Refused(2) && cache.table == old(cache.table)
    ensures outcome.Started? <==>
              && namesValid && output.Emitted?
              && (forall r :: r in results ==> !IsError(r))
              && (force || (!transitiveFailed && forall r :: r in results ==> !IsFailure(r)))
    ensures outcome.Started? ==> outcome.managerCode == manager
  {
    results := [];
    if !namesValid { return Refused(2), results; }
    var code;
    var rs;
    code, rs := RunCheck(sha256, cache, scans, transitiveFailed, output);
    results := rs;
    if code.None? { return Aborted, results; }
    if code.value == 1 && !force { return Refused(1), results; }
    if code.value == 2 { return Refused(2), results; }
    return Started(manager), results;
  }

  /** The exit code is faithful: 2 iff some package could not be scanned or no key
      was available, else 1 iff something warned, blocked or failed transitively. */
  lemma ExitCodeMeaning(sha256: Hash, t: Table, scans: seq<Scan>, transitiveFailed: bool, output: Output)
    requires !output.Failed?
    ensures var results := ScanAll(sha256, t, scans).1;
            var code := ExitCode(exists r :: r in results && IsError(r),
                                 transitiveFailed || exists r :: r in results && IsFailure(r), output);
            && (code == Some(2) <==> output.NoOfflineKey? || exists s :: s in scans && Unreachable(s))
            && (code == Some(0) <==> (output.Emitted? && !transitiveFailed
                                      && forall r :: r in results ==> r.result == "pass"))
  {
    ErrorsAreUnreachable(sha256, t, scans);
    ResultsInVocabulary(sha256, t, scans);
  }
}
