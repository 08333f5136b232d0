/** How often the tree of one pinned commit is fetched: by the flat scan and the walk,
    which consult the cache, and by the prefetch of edges, which does not. */
module FetchCounts {
  import opened Verdicts
  import opened HashGate
  import opened VerdictCache
  import opened Framing
  import opened ScanLoop
  import opened NodeScanner
  import opened CacheRuns

  predicate IsAt(n: GitNode, key: Key) {
    n.target.Some? && GitKey(n.name, n.target.value) == key
  }

  predicate NodeFetches(t: Table, n: GitNode, key: Key) {
    IsAt(n, key) && ServedNodeRow(t, n).None? && n.tree.Some?
  }

  /** The event fetches the tree of this commit successfully, to scan it. */
  predicate ScanFetches(t: Table, e: Event, key: Key) {
    match e
    case Flat(s) => s.GitScan? && GitKey(s.name, s.ref) == key && ServedGitRow(t, s).None? && s.tree.Some?
    case Node(n) => NodeFetches(t, n, key)
    case Refresh(ref, root, _, _) => ClassifyRef(ref).Pinned? && NodeFetches(t, root, key)
    case _ => false
  }

  /** The event fetches it successfully for its edges. */
  predicate PrefetchFetches(t: Table, e: Event, key: Key) {
    e.Prefetch? && IsAt(e.n, key) && Prefetched(t, e.n) && e.n.tree.Some?
  }

  function One(b: bool): nat { if b then 1 else 0 }

  function ScanCount(sha256: Hash, t: Table, events: seq<Event>, key: Key): nat {
    if events == [] then 0
    else
      var init := events[..|events| - 1];
      ScanCount(sha256, t, init, key) + One(ScanFetches(RunEvents(sha256, t, init), events[|events| - 1], key))
  }

  function FetchCount(sha256: Hash, t: Table, events: seq<Event>, key: Key): nat {
    if events == [] then 0
    else
      var (init, e) := (events[..|events| - 1], events[|events| - 1]);
      var before := RunEvents(sha256, t, init);
      FetchCount(sha256, t, init, key) + One(ScanFetches(before, e, key)) + One(PrefetchFetches(before, e, key))
  }

  predicate AllOk(db: Db) {
    db.lookupOk && db.invalidateOk && db.writeOk
  }

  /** A scan or prefetch whose database operations all succeed. */
  predicate Plain(e: Event) {
    match e
    case Flat(s) => AllOk(s.db)
    case Node(n) => AllOk(n.db)
    case Prefetch(n) => AllOk(n.db)
    case _ => false
  }

  predicate PinnedGit(key: Key) {
    key.registry == "git" && ClassifyRef(key.version).Pinned?
  }

  predicate UsableRow(t: Table, key: Key) {
    key in t && Usable(t[key].contentHash)
  }

  /** Both readers serve this row without fetching. */
  predicate Servable(t: Table, key: Key) {
    UsableRow(t, key) && AttributedHit(t[key]).Some?
  }

  predicate Warm(t: Table, key: Key) {
    WarmRoot(t, key.name, key.version)
  }

  // ------------------------------------------------------------------
  // Scans
  // ------------------------------------------------------------------

  /** Whether the event would fetch from this row: the walk asks for a usable hash, the
      flat scan for attribution as well. */
  predicate Wants(t: Table, e: Event, key: Key) {
    match e
    case Flat(s) => s.GitScan? && GitKey(s.name, s.ref) == key && s.tree.Some? && !Servable(t, key)
    case Node(n) => IsAt(n, key) && n.tree.Some? && !UsableRow(t, key)
    case _ => false
  }

  lemma FetchesIffWants(t: Table, e: Event, key: Key)
    requires Plain(e) && PinnedGit(key)
    ensures ScanFetches(t, e, key) <==> Wants(t, e, key)
  {
    if key in t {
      GateIsEquivalence(t[key].contentHash, None, None);
    }
  }

  lemma FetchMakesServable(sha256: Hash, t: Table, e: Event, key: Key)
    requires Plain(e) && PinnedGit(key) && ScanFetches(t, e, key)
    ensures Servable(Apply(sha256, t, e), key) && !Warm(Apply(sha256, t, e), key)
  {
    var files := if e.Flat? then e.s.tree.value else e.n.tree.value;
    Sha256IsUsable(sha256, FramePairs(AsPairs(files)));
  }

  lemma OthersLeaveRow(sha256: Hash, t: Table, e: Event, key: Key)
    requires Plain(e) && PinnedGit(key) && !ScanFetches(t, e, key)
    ensures Find(Apply(sha256, t, e), key) == Find(t, key)
  {
    if e.Flat? && e.s.RegistryScan? {
      RegistryIsNotGit(e.s.registry);
    }
  }

  ghost predicate AllPlain(events: seq<Event>) {
    forall i :: 0 <= i < |events| ==> Plain(events[i])
  }

  ghost predicate SomeoneWants(t: Table, events: seq<Event>, key: Key) {
    exists i :: 0 <= i < |events| && Wants(t, events[i], key)
  }

  lemma WantsDependsOnRow(t: Table, t': Table, e: Event, key: Key)
    requires Find(t, key) == Find(t', key) && key.registry == "git"
    ensures Wants(t, e, key) == Wants(t', e, key) && Warm(t, key) == Warm(t', key)
    ensures Servable(t, key) == Servable(t', key)
  {
    assert key in t <==> key in t';
    assert key in t ==> t[key] == t'[key];
  }

  /** While database operations succeed and nothing is refreshed or forgotten, scans
      fetch a pinned commit exactly once if any event finds the first row wanting, and
      otherwise never; after a fetch the row is served and cold, until then it is as it was. */
  lemma {:induction false} ScanCountIs(sha256: Hash, t: Table, events: seq<Event>, key: Key)
    requires AllPlain(events) && PinnedGit(key)
    ensures ScanCount(sha256, t, events, key) == One(SomeoneWants(t, events, key))
    ensures var t1 := RunEvents(sha256, t, events);
            if SomeoneWants(t, events, key) then Servable(t1, key) && !Warm(t1, key) else Find(t1, key) == Find(t, key)
  {
    if events != [] {
      var (init, e) := (events[..|events| - 1], events[|events| - 1]);
      var before := RunEvents(sha256, t, init);
      assert forall i :: 0 <= i < |init| ==> init[i] == events[i];
      ScanCountIs(sha256, t, init, key);
      FetchesIffWants(before, e, key);
      if SomeoneWants(t, init, key) {
        assert !Wants(before, e, key);
        OthersLeaveRow(sha256, before, e, key);
        WantsDependsOnRow(before, Apply(sha256, before, e), e, key);
        var i :| 0 <= i < |init| && Wants(t, init[i], key);
        assert Wants(t, events[i], key);
      } else {
        WantsDependsOnRow(t, before, e, key);
        if Wants(t, e, key) {
          assert Wants(t, events[|init|], key);
          FetchMakesServable(sha256, before, e, key);
        } else {
          OthersLeaveRow(sha256, before, e, key);
        }
      }
    }
  }

  /** The flat scan and the walk's scans fetch each pinned commit successfully at most
      once, whatever table they start from; prefetches are counted apart. */
  lemma PinnedCommitIsScannedOnce(sha256: Hash, t: Table, events: seq<Event>, i: nat, j: nat, key: Key)
    requires i < j < |events| && AllPlain(events) && PinnedGit(key)
    requires ScanFetches(RunEvents(sha256, t, events[..i]), events[i], key)
    ensures !ScanFetches(RunEvents(sha256, t, events[..j]), events[j], key)
  {
    CountGrows(sha256, t, events, i, j, key);
    assert forall m :: 0 <= m < j + 1 ==> events[..j + 1][m] == events[m];
    ScanCountIs(sha256, t, events[..j + 1], key);
    CountStep(sha256, t, events, j, key);
  }

  lemma CountStep(sha256: Hash, t: Table, events: seq<Event>, i: nat, key: Key)
    requires i < |events|
    ensures ScanCount(sha256, t, events[..i + 1], key)
         == ScanCount(sha256, t, events[..i], key) + One(ScanFetches(RunEvents(sha256, t, events[..i]), events[i], key))
  {
    assert events[..i + 1][..i] == events[..i];
  }

  lemma {:induction false} CountGrows(sha256: Hash, t: Table, events: seq<Event>, i: nat, j: nat, key: Key)
    requires i < j <= |events| && ScanFetches(RunEvents(sha256, t, events[..i]), events[i], key)
    ensures ScanCount(sha256, t, events[..j], key) >= 1
    decreases j
  {
    CountStep(sha256, t, events, j - 1, key);
    if i != j - 1 {
      CountGrows(sha256, t, events, i, j - 1, key);
    }
  }

  // ------------------------------------------------------------------
  // Prefetches
  // ------------------------------------------------------------------

  /** The prefetches that can succeed. */
  function Prefetchable(events: seq<Event>, key: Key): nat {
    if events == [] then 0
    else
      var e := events[|events| - 1];
      Prefetchable(events[..|events| - 1], key) + One(e.Prefetch? && IsAt(e.n, key) && e.n.tree.Some?)
  }

  lemma {:induction false} CountSplits(sha256: Hash, t: Table, events: seq<Event>, key: Key)
    requires AllPlain(events) && PinnedGit(key) && !Warm(t, key)
    ensures FetchCount(sha256, t, events, key) == ScanCount(sha256, t, events, key) + Prefetchable(events, key)
  {
    if events != [] {
      var (init, e) := (events[..|events| - 1], events[|events| - 1]);
      assert forall i :: 0 <= i < |init| ==> init[i] == events[i];
      CountSplits(sha256, t, init, key);
      ScanCountIs(sha256, t, init, key);
      if !SomeoneWants(t, init, key) {
        WantsDependsOnRow(t, RunEvents(sha256, t, init), e, key);
      }
    }
  }

  /** The exact number of successful fetches of a commit whose row is not warm: one if
      some scan finds the row wanting, and one for every prefetch that can succeed. */
  lemma FetchCountIs(sha256: Hash, t: Table, events: seq<Event>, key: Key)
    requires AllPlain(events) && PinnedGit(key) && !Warm(t, key)
    ensures FetchCount(sha256, t, events, key) == One(SomeoneWants(t, events, key)) + Prefetchable(events, key)
  {
    CountSplits(sha256, t, events, key);
    ScanCountIs(sha256, t, events, key);
  }

  // ------------------------------------------------------------------
  // A whole run of the program over one root
  // ------------------------------------------------------------------

  /** One run with the transitive scan, before anything is refreshed: the flat scan of the
      root, its prefetch, and scans of walked nodes. */
  ghost predicate WalkOfRoot(events: seq<Event>, key: Key) {
    && |events| >= 2
    && events[0].Flat? && events[0].s.GitScan? && GitKey(events[0].s.name, events[0].s.ref) == key
    && events[0].s.tree.Some?
    && events[1].Prefetch? && IsAt(events[1].n, key) && events[1].n.tree.Some?
    && (forall i :: 2 <= i < |events| ==> events[i].Node?)
    && AllPlain(events)
  }

  /** The refresh of the root's digest, which ends a run whose depth limit is not zero, whose
      budget holds and whose root's own edges are known. */
  predicate RefreshOf(e: Event, key: Key) {
    e.Refresh? && e.ref == key.version && IsAt(e.root, key) && AllOk(e.root.db) && AllOk(e.db)
  }

  lemma {:induction false} OnePrefetch(events: seq<Event>, key: Key)
    requires events != [] && events[0].Prefetch? && IsAt(events[0].n, key) && events[0].n.tree.Some?
    requires forall i :: 1 <= i < |events| ==> events[i].Node?
    ensures Prefetchable(events, key) == 1
  {
    var init := events[..|events| - 1];
    if |events| > 1 {
      OnePrefetch(init, key);
    } else {
      assert init == [];
    }
  }

  /** A served or scanned root is never warm when its prefetch comes. */
  lemma FlatScanCools(sha256: Hash, t: Table, e: Event, key: Key)
    requires DigestsUnserved(t) && Plain(e) && PinnedGit(key)
    requires e.Flat? && e.s.GitScan? && GitKey(e.s.name, e.s.ref) == key && e.s.tree.Some?
    ensures var t1 := Apply(sha256, t, e); Servable(t1, key) && !Warm(t1, key)
    ensures ScanFetches(t, e, key) <==> !Servable(t, key)
  {
    FetchesIffWants(t, e, key);
    if Servable(t, key) {
      assert t[key].subtreeDigest.None?;
      OthersLeaveRow(sha256, t, e, key);
      WantsDependsOnRow(t, Apply(sha256, t, e), e, key);
    } else {
      FetchMakesServable(sha256, t, e, key);
    }
  }

  lemma {:induction false} RunFromFirst(sha256: Hash, t: Table, events: seq<Event>)
    requires events != []
    ensures RunEvents(sha256, t, events) == RunEvents(sha256, Apply(sha256, t, events[0]), events[1..])
  {
    if |events| == 1 {
      assert events[..0] == [] && events[1..] == [];
    } else {
      assert events[..|events| - 1][1..] == events[1..][..|events[1..]| - 1];
      RunFromFirst(sha256, t, events[..|events| - 1]);
    }
  }

  lemma {:induction false} CountFromFirst(sha256: Hash, t: Table, events: seq<Event>, key: Key)
    requires events != []
    ensures FetchCount(sha256, t, events, key)
         == One(ScanFetches(t, events[0], key)) + One(PrefetchFetches(t, events[0], key))
            + FetchCount(sha256, Apply(sha256, t, events[0]), events[1..], key)
  {
    if |events| == 1 {
      assert events[..0] == [] && events[1..] == [];
    } else {
      var init := events[..|events| - 1];
      assert init[1..] == events[1..][..|events[1..]| - 1];
      CountFromFirst(sha256, t, init, key);
      RunFromFirst(sha256, t, init);
    }
  }

  /** A row with a subtree digest stores no details, so the flat scan never serves
      it: it fetches again, and its row has no digest. A root is therefore still warm
      after its flat scan iff it was warm and that scan fetched or wrote nothing. */
  lemma WarmRootOnlyWithoutFlatScan(sha256: Hash, t0: Table, events: seq<Event>, s: Scan)
    requires Unattributed(t0) && s.GitScan?
    ensures var t := RunEvents(sha256, t0, events);
            WarmRoot(ScanGit(sha256, t, s).0, s.name, s.ref) <==>
              WarmRoot(t, s.name, s.ref) && (s.tree.None? || !s.db.writeOk)
  {
    ReachableDigests(sha256, t0, events);
  }

  lemma RefreshOfServable(sha256: Hash, t: Table, e: Event, key: Key)
    requires PinnedGit(key) && Servable(t, key) && e.Refresh? && e.ref == key.version && IsAt(e.root, key)
    requires AllOk(e.root.db) && AllOk(e.db)
    ensures !ScanFetches(t, e, key) && !PrefetchFetches(t, e, key)
    ensures var t1 := Apply(sha256, t, e); !Servable(t1, key) && Warm(t1, key)
  {
    GateIsEquivalence(t[key].contentHash, None, None);
  }

  lemma WalkAfterFlat(sha256: Hash, t: Table, rest: seq<Event>, key: Key)
    requires PinnedGit(key) && Servable(t, key) && !Warm(t, key) && rest != [] && AllPlain(rest)
    requires rest[0].Prefetch? && IsAt(rest[0].n, key) && rest[0].n.tree.Some?
    requires forall i :: 1 <= i < |rest| ==> rest[i].Node?
    ensures FetchCount(sha256, t, rest, key) == 1 && Find(RunEvents(sha256, t, rest), key) == Find(t, key)
  {
    OnePrefetch(rest, key);
    assert !SomeoneWants(t, rest, key);
    FetchCountIs(sha256, t, rest, key);
    ScanCountIs(sha256, t, rest, key);
  }

  /** Until the refresh, a run fetches a root's pinned commit twice, or once if its row was
      attributed; and its row is attributed then. A run that refreshes nothing ends here. */
  lemma WalkFetchesTwice(sha256: Hash, t: Table, events: seq<Event>, key: Key)
    requires DigestsUnserved(t) && PinnedGit(key) && WalkOfRoot(events, key)
    ensures FetchCount(sha256, t, events, key) == if Servable(t, key) then 1 else 2
    ensures Servable(RunEvents(sha256, t, events), key)
  {
    var (t1, rest) := (Apply(sha256, t, events[0]), events[1..]);
    FlatScanCools(sha256, t, events[0], key);
    CountFromFirst(sha256, t, events, key);
    RunFromFirst(sha256, t, events);
    assert forall i :: 0 <= i < |rest| ==> rest[i] == events[i + 1];
    WalkAfterFlat(sha256, t1, rest, key);
    WantsDependsOnRow(t1, RunEvents(sha256, t1, rest), events[0], key);
  }

  /** With the refresh, the count stays and the row is left unattributed; so after a run
      that refreshed, the next one fetches the commit twice. */
  lemma TransitiveRunFetchesTwice(sha256: Hash, t: Table, events: seq<Event>, refresh: Event, key: Key)
    requires DigestsUnserved(t) && PinnedGit(key) && WalkOfRoot(events, key) && RefreshOf(refresh, key)
    ensures FetchCount(sha256, t, events + [refresh], key) == if Servable(t, key) then 1 else 2
    ensures !Servable(RunEvents(sha256, t, events + [refresh]), key)
  {
    WalkFetchesTwice(sha256, t, events, key);
    assert (events + [refresh])[..|events|] == events;
    RefreshOfServable(sha256, RunEvents(sha256, t, events), refresh, key);
  }
}
