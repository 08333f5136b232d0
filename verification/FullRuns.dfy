/** Whole program runs, flat scan, walk and document together, against an empty cache. */
module FullRuns {
  import opened Verdicts
  import opened VerdictCache
  import opened Framing
  import opened Graph
  import opened ScanLoop
  import opened NodeScanner
  import opened Transparency
  import opened Resolvers
  import opened TransitiveWalk
  import opened TransitiveScan
  import opened WalkDepth
  import opened SubtreeGate
  import opened CachedWalk
  import opened Leftovers
  import opened CacheRuns
  import opened FetchCounts
  import Sbom

  // ------------------------------------------------------------------
  // Documents
  // ------------------------------------------------------------------

  function Shown(r: CheckResult): Sbom.Result {
    Sbom.Result(r.package, r.version, r.registry, r.result, r.vulns)
  }

  function AllShown(results: seq<CheckResult>): (shown: seq<Sbom.Result>)
    ensures |shown| == |results|
  {
    seq(|results|, i requires 0 <= i < |results| => Shown(results[i]))
  }

  /** The registry packages that a run serves from the cache. */
  ghost predicate Hit(sha256: Hash, t: Table, scans: seq<Scan>, i: nat)
    requires i < |scans|
  {
    scans[i].RegistryScan? && Served(TableBefore(sha256, t, scans, i), scans[i])
  }

  lemma ShownIsTransparent(sha256: Hash, w: World, t: Table, scans: seq<Scan>, i: nat)
    requires TableTrue(w, t) && RunAgrees(w, scans) && i < |scans|
    ensures |ScanAll(sha256, t, scans).1| == |scans|
    ensures var (r, anew) := (AllShown(ScanAll(sha256, t, scans).1)[i], AllShown(FreshAll(scans))[i]);
            r == if Hit(sha256, t, scans, i) then anew.(package := scans[i].pkg, vulns := []) else anew
  {
    ResultIsTransparent(sha256, w, t, scans, i);
  }

  /** Two documents list the same vulnerabilities if they do so place by place. */
  lemma {:induction false} SameFindings(a: seq<Sbom.Result>, b: seq<Sbom.Result>)
    requires |a| == |b|
    requires forall i :: 0 <= i < |a| ==> a[i].vulns == b[i].vulns && (a[i].vulns == [] || a[i].package == b[i].package)
    ensures Sbom.Vulnerabilities(a) == Sbom.Vulnerabilities(b)
  {
    if a != [] {
      var last := |a| - 1;
      SameFindings(a[..last], b[..last]);
      if a[last].vulns == [] {
        assert Sbom.Entries(a[last].vulns, Sbom.BomRef(a[last].package, last)) == [];
        assert Sbom.Entries(b[last].vulns, Sbom.BomRef(b[last].package, last)) == [];
      }
    }
  }

  lemma FindingsAtEqual(a: seq<Sbom.Result>, b: seq<Sbom.Result>, i: nat)
    requires |a| == |b| && i < |a| && Sbom.Vulnerabilities(a) == Sbom.Vulnerabilities(b) && a[i].vulns == []
    ensures b[i].vulns == []
  {
    Sbom.FindingsOfComponent(a, b[i].package, i);
    Sbom.FindingsOfComponent(b, b[i].package, i);
  }

  /** The vulnerabilities section of a run is the empty cache's iff no package served from
      the cache has findings: a hit loses every one of them. */
  lemma VulnerabilitiesSurviveIff(sha256: Hash, w: World, t: Table, scans: seq<Scan>)
    requires TableTrue(w, t) && RunAgrees(w, scans)
    ensures Sbom.Vulnerabilities(AllShown(ScanAll(sha256, t, scans).1)) == Sbom.Vulnerabilities(AllShown(FreshAll(scans)))
       <==> forall i :: 0 <= i < |scans| && Hit(sha256, t, scans, i) ==> scans[i].vulns == []
  {
    ResultCount(sha256, t, scans);
    var (shown, anew) := (AllShown(ScanAll(sha256, t, scans).1), AllShown(FreshAll(scans)));
    forall i | 0 <= i < |scans|
      ensures shown[i] == if Hit(sha256, t, scans, i) then anew[i].(package := scans[i].pkg, vulns := []) else anew[i]
      ensures Hit(sha256, t, scans, i) ==> anew[i].vulns == scans[i].vulns
    {
      ShownIsTransparent(sha256, w, t, scans, i);
    }
    if Sbom.Vulnerabilities(shown) == Sbom.Vulnerabilities(anew) {
      forall i | 0 <= i < |scans| && Hit(sha256, t, scans, i) ensures scans[i].vulns == [] {
        FindingsAtEqual(shown, anew, i);
      }
    } else if forall i :: 0 <= i < |scans| && Hit(sha256, t, scans, i) ==> scans[i].vulns == [] {
      SameFindings(shown, anew);
    }
  }

  /** Components and vulnerabilities together are the empty cache's iff every package
      served is asked for as the registry spells it and has no findings. */
  lemma DocumentSurvivesIff(sha256: Hash, w: World, t: Table, scans: seq<Scan>)
    requires TableTrue(w, t) && RunAgrees(w, scans)
    ensures var (shown, anew) := (AllShown(ScanAll(sha256, t, scans).1), AllShown(FreshAll(scans)));
            Sbom.Components(shown) == Sbom.Components(anew) && Sbom.Vulnerabilities(shown) == Sbom.Vulnerabilities(anew) <==>
              forall i :: 0 <= i < |scans| && Hit(sha256, t, scans, i) ==>
                scans[i].pkg == scans[i].fetched.value.name && scans[i].vulns == []
  {
    VulnerabilitiesSurviveIff(sha256, w, t, scans);
    ComponentsSurviveIff(sha256, w, t, scans);
  }

  lemma ComponentsSurviveIff(sha256: Hash, w: World, t: Table, scans: seq<Scan>)
    requires TableTrue(w, t) && RunAgrees(w, scans)
    ensures Sbom.Components(AllShown(ScanAll(sha256, t, scans).1)) == Sbom.Components(AllShown(FreshAll(scans)))
       <==> forall i :: 0 <= i < |scans| && Hit(sha256, t, scans, i) ==> scans[i].pkg == scans[i].fetched.value.name
  {
    ResultCount(sha256, t, scans);
    var (shown, anew) := (AllShown(ScanAll(sha256, t, scans).1), AllShown(FreshAll(scans)));
    forall i | 0 <= i < |scans|
      ensures shown[i] == if Hit(sha256, t, scans, i) then anew[i].(package := scans[i].pkg, vulns := []) else anew[i]
      ensures Hit(sha256, t, scans, i) ==> anew[i].package == scans[i].fetched.value.name
    {
      ShownIsTransparent(sha256, w, t, scans, i);
    }
    ComponentsAgreeIff(shown, anew);
  }

  lemma ComponentsAgreeIff(a: seq<Sbom.Result>, b: seq<Sbom.Result>)
    requires |a| == |b|
    requires forall i :: 0 <= i < |a| ==> a[i].version == b[i].version && a[i].registry == b[i].registry && a[i].verdict == b[i].verdict
    ensures Sbom.Components(a) == Sbom.Components(b) <==> forall i :: 0 <= i < |a| ==> a[i].package == b[i].package
  {
    if forall i :: 0 <= i < |a| ==> a[i].package == b[i].package {
      assert forall i :: 0 <= i < |a| ==> Sbom.ComponentAt(a, i) == Sbom.ComponentAt(b, i);
      assert Sbom.Components(a) == Sbom.Components(b);
    }
    if Sbom.Components(a) == Sbom.Components(b) {
      forall i | 0 <= i < |a| ensures a[i].package == b[i].package {
        assert Sbom.Components(a)[i] == Sbom.Components(b)[i];
      }
    }
  }

  /** The package whose query for vulnerabilities dates the document: the first one that is
      scanned in full, `served` saying which are not, and whose query succeeds. */
  function Dated(scans: seq<Scan>, queried: seq<bool>, served: seq<bool>, from: nat): (i: nat)
    requires from <= |scans| == |queried| == |served|
    ensures from <= i <= |scans|
    ensures i < |scans| ==> Dates(scans, queried, served, i)
    ensures forall j :: from <= j < i ==> !Dates(scans, queried, served, j)
    decreases |scans| - from
  {
    if from == |scans| || Dates(scans, queried, served, from) then from else Dated(scans, queried, served, from + 1)
  }

  predicate Dates(scans: seq<Scan>, queried: seq<bool>, served: seq<bool>, i: nat)
    requires i < |scans| == |queried| == |served|
  {
    scans[i].RegistryScan? && scans[i].fetched.Some? && queried[i] && !served[i]
  }

  ghost function Hits(sha256: Hash, t: Table, scans: seq<Scan>): (served: seq<bool>)
    ensures |served| == |scans|
  {
    seq(|scans|, i requires 0 <= i < |scans| => Hit(sha256, t, scans, i))
  }

  /** The date of the document, and with it the time it is valid until, is that of a run
      that serves nothing iff the package that dates that run is not served; and there is
      no date at all iff every package that was queried was served. */
  lemma DateSurvivesIff(sha256: Hash, t: Table, scans: seq<Scan>, queried: seq<bool>)
    requires |queried| == |scans|
    ensures var none := seq(|scans|, _ => false);
            var (i, anew) := (Dated(scans, queried, Hits(sha256, t, scans), 0), Dated(scans, queried, none, 0));
            && (i == anew <==> anew == |scans| || !Hit(sha256, t, scans, anew))
            && (i == |scans| <==> forall j :: 0 <= j < |scans| && Dates(scans, queried, none, j) ==> Hit(sha256, t, scans, j))
  {
    var none := seq(|scans|, _ => false);
    assert forall j :: 0 <= j < |scans| ==>
        (Dates(scans, queried, Hits(sha256, t, scans), j) <==> Dates(scans, queried, none, j) && !Hit(sha256, t, scans, j));
  }

  // ------------------------------------------------------------------
  // The walk behind a flat run
  // ------------------------------------------------------------------

  function Requested(s: Scan): string {
    if s.GitScan? then s.name else s.pkg
  }

  /** The flat results as the walk sees them. */
  function Listing(scans: seq<Scan>, results: seq<CheckResult>): (list: seq<Listed>)
    requires |scans| == |results|
    ensures |list| == |scans|
  {
    seq(|scans|, i requires 0 <= i < |scans| =>
      Listed(Requested(scans[i]), results[i].package, results[i].result, scans[i].GitScan?))
  }

  function Registered(list: seq<Listed>): NodeId -> Verdict {
    (n: NodeId) => RegistryVerdict(Pairs(list), n.name)
  }

  /** What the walk is given, with its roots and a breach of the budget. */
  datatype Walking = Walking(p: Params, roots: seq<NodeId>, breach: Option<Breach>)
  {
    predicate Fails() {
      Outcome(if breach.Some? then None else WorstOfRoots(p, roots), breach, [], []).IsFailure()
    }
  }

  function Given(sha256: Hash, k: Around, t: Table, list: seq<Listed>): Walking {
    Walking(GivenParams(sha256, k, t, Registered(list)), k.roots, BreachOver(k, EdgesOver(k, t)))
  }

  ghost function CodeOf(results: seq<CheckResult>, walkFails: bool, output: Output): Option<int> {
    ExitCode(exists r :: r in results && IsError(r), walkFails || exists r :: r in results && IsFailure(r), output)
  }

  /** What a flat run over a table leads to: its results as the walk sees them, and what
      the walk is given over the table it leaves. */
  function ListAfter(sha256: Hash, t: Table, scans: seq<Scan>): (list: seq<Listed>)
    ensures |list| == |scans|
  {
    ResultCount(sha256, t, scans);
    Listing(scans, ScanAll(sha256, t, scans).1)
  }

  function WalkAfter(sha256: Hash, t: Table, scans: seq<Scan>, k: Around): Walking {
    Given(sha256, k, ScanAll(sha256, t, scans).0, ListAfter(sha256, t, scans))
  }

  /** The exit code of a run with the transitive scan enabled. */
  ghost function RunCode(sha256: Hash, t: Table, scans: seq<Scan>, k: Around, output: Output): Option<int> {
    CodeOf(ScanAll(sha256, t, scans).1, WalkAfter(sha256, t, scans, k).Fails(), output)
  }

  // ------------------------------------------------------------------
  // When the walk does not fail
  // ------------------------------------------------------------------

  ghost predicate AllPass(list: seq<Listed>) {
    forall i :: 0 <= i < |list| ==> list[i].result == "pass"
  }

  ghost predicate IsShown(list: seq<Listed>, name: string) {
    exists i :: 0 <= i < |list| && list[i].shown == name
  }

  /** A registry package somewhere below a root, under this name. */
  ghost predicate Needs(x: Walking, name: string) {
    exists r, n :: r in x.roots && Reaches(x.p, r, n) && n.Registry? && n.name == name
  }

  ghost predicate AllNeedsShown(x: Walking, list: seq<Listed>) {
    forall name :: Needs(x, name) ==> IsShown(list, name)
  }

  ghost predicate NodeClean(x: Walking, n: NodeId) {
    x.p.edges(n).Edges? && (n.Git? ==> x.p.scan(n) == Pass)
  }

  /** Nothing but registry verdicts can fail the walk. */
  ghost predicate OtherwiseClean(x: Walking) {
    && x.breach.None?
    && (forall r, n :: r in x.roots && Reaches(x.p, r, n) ==> NodeClean(x, n))
    && (forall r :: r in x.roots ==> NoCut(DfsWalk(x.p, r).1))
  }

  lemma PassIffShown(list: seq<Listed>, name: string)
    requires AllPass(list)
    ensures RegistryVerdict(Pairs(list), name) == Pass <==> IsShown(list, name)
  {
    FilledNames(Pairs(list), name);
    if name in Filled(Pairs(list)) {
      var i := LastOf(Pairs(list), name);
      assert list[i].shown == name && list[i].result == "pass";
    } else {
      assert forall i :: 0 <= i < |list| ==> Pairs(list)[i].0 == list[i].shown;
    }
  }

  lemma NodesCleanIff(x: Walking, list: seq<Listed>)
    requires forall n :: Clean(x.p, n) <==> NodeClean(x, n) && (n.Registry? ==> IsShown(list, n.name))
    ensures (forall r, n :: r in x.roots && Reaches(x.p, r, n) ==> Clean(x.p, n))
       <==> (forall r, n :: r in x.roots && Reaches(x.p, r, n) ==> NodeClean(x, n)) && AllNeedsShown(x, list)
  {
    if forall r, n :: r in x.roots && Reaches(x.p, r, n) ==> Clean(x.p, n) {
      forall name | Needs(x, name) ensures IsShown(list, name) {
        var r, n :| r in x.roots && Reaches(x.p, r, n) && n.Registry? && n.name == name;
        assert Clean(x.p, n);
      }
    } else if AllNeedsShown(x, list) {
      var r, n :| r in x.roots && Reaches(x.p, r, n) && !Clean(x.p, n);
      if n.Registry? { assert Needs(x, n.name); }
    }
  }

  /** When every flat result passes, the walk does not fail iff nothing else is unclean and
      every name it needs is shown by some result. */
  lemma WalkFailsIff(sha256: Hash, k: Around, t: Table, list: seq<Listed>)
    requires AllPass(list)
    ensures var x := Given(sha256, k, t, list); !x.Fails() <==> OtherwiseClean(x) && AllNeedsShown(x, list)
  {
    var x := Given(sha256, k, t, list);
    var outcome := Outcome(if x.breach.Some? then None else WorstOfRoots(x.p, x.roots), x.breach, [], []);
    NoFailureVouchesForEveryRoot(x.p, x.roots, x.breach, outcome);
    forall n ensures Clean(x.p, n) <==> NodeClean(x, n) && (n.Registry? ==> IsShown(list, n.name)) {
      if n.Registry? { PassIffShown(list, n.name); }
    }
    NodesCleanIff(x, list);
  }

  // ------------------------------------------------------------------
  // One run over two tables
  // ------------------------------------------------------------------

  /** The run gives the exit code 0. */
  ghost predicate Vouched(sha256: Hash, t: Table, scans: seq<Scan>, k: Around) {
    var x := WalkAfter(sha256, t, scans, k);
    OtherwiseClean(x) && AllNeedsShown(x, ListAfter(sha256, t, scans))
  }

  ghost predicate AllFreshPass(scans: seq<Scan>) {
    forall i :: 0 <= i < |scans| ==> FreshResult(scans[i]).result == "pass"
  }

  lemma NoFlags(results: seq<CheckResult>)
    requires forall i :: 0 <= i < |results| ==> results[i].result == "pass"
    ensures !(exists r :: r in results && IsError(r)) && !(exists r :: r in results && IsFailure(r))
  {
    assert "pass"[0] == 'p' && "warn"[0] == 'w' && "block"[0] == 'b' && "error"[0] == 'e';
  }

  lemma SomeFlag(results: seq<CheckResult>, i: nat)
    requires i < |results| && (IsError(results[i]) || IsFailure(results[i]))
    ensures (exists r :: r in results && IsError(r)) || (exists r :: r in results && IsFailure(r))
  {
    assert results[i] in results;
  }

  lemma FreshVocabulary(s: Scan)
    ensures var r := FreshResult(s); IsError(r) || IsFailure(r) || r.result == "pass"
  {
    ResultVocabulary(_ => [], map[], s);
    EmptyCacheIsFresh(_ => [], s);
  }

  lemma ResultsAreFresh(sha256: Hash, w: World, t: Table, scans: seq<Scan>)
    requires TableTrue(w, t) && RunAgrees(w, scans)
    ensures |ScanAll(sha256, t, scans).1| == |scans|
    ensures forall i :: 0 <= i < |scans| ==> ScanAll(sha256, t, scans).1[i].result == FreshResult(scans[i]).result
  {
    ResultCount(sha256, t, scans);
    forall i | 0 <= i < |scans| ensures ScanAll(sha256, t, scans).1[i].result == FreshResult(scans[i]).result {
      ResultIsTransparent(sha256, w, t, scans, i);
    }
  }

  lemma CodeOfPassing(results: seq<CheckResult>, walkFails: bool)
    requires forall i :: 0 <= i < |results| ==> results[i].result == "pass"
    ensures CodeOf(results, walkFails, Emitted) == if walkFails then Some(1) else Some(0)
  {
    NoFlags(results);
  }

  lemma RunCodeOfPassing(sha256: Hash, w: World, t: Table, scans: seq<Scan>, k: Around)
    requires TableTrue(w, t) && RunAgrees(w, scans) && AllFreshPass(scans)
    ensures RunCode(sha256, t, scans, k, Emitted) == if Vouched(sha256, t, scans, k) then Some(0) else Some(1)
  {
    ResultsAreFresh(sha256, w, t, scans);
    CodeOfPassing(ScanAll(sha256, t, scans).1, WalkAfter(sha256, t, scans, k).Fails());
    WalkFailsIff(sha256, k, ScanAll(sha256, t, scans).0, ListAfter(sha256, t, scans));
  }

  ghost predicate SameFlagged(a: seq<CheckResult>, b: seq<CheckResult>) {
    && ((exists r :: r in a && IsError(r)) <==> exists r :: r in b && IsError(r))
    && ((exists r :: r in a && IsFailure(r)) <==> exists r :: r in b && IsFailure(r))
  }

  lemma FlagsAreFresh(sha256: Hash, w: World, t: Table, scans: seq<Scan>)
    requires TableTrue(w, t) && RunAgrees(w, scans)
    ensures SameFlagged(ScanAll(sha256, t, scans).1, FreshAll(scans))
  {
    FlatRunIsTransparent(sha256, w, t, scans);
  }

  lemma CodeOfFailing(results: seq<CheckResult>, anew: seq<CheckResult>, i: nat, walkFails: bool)
    requires SameFlagged(results, anew) && i < |anew| && (IsError(anew[i]) || IsFailure(anew[i]))
    ensures CodeOf(results, walkFails, Emitted) == CodeOf(anew, true, Emitted)
  {
    SomeFlag(anew, i);
  }

  lemma RunCodeOfFailing(sha256: Hash, w: World, t: Table, scans: seq<Scan>, k: Around)
    requires TableTrue(w, t) && RunAgrees(w, scans) && !AllFreshPass(scans)
    ensures RunCode(sha256, t, scans, k, Emitted) == CodeOf(FreshAll(scans), true, Emitted)
  {
    FlagsAreFresh(sha256, w, t, scans);
    var i :| 0 <= i < |scans| && FreshResult(scans[i]).result != "pass";
    FreshVocabulary(scans[i]);
    CodeOfFailing(ScanAll(sha256, t, scans).1, FreshAll(scans), i, WalkAfter(sha256, t, scans, k).Fails());
  }

  /** The exit code in closed form, over any table that says what the world says. */
  lemma RunCodeIs(sha256: Hash, w: World, t: Table, scans: seq<Scan>, k: Around)
    requires TableTrue(w, t) && RunAgrees(w, scans)
    ensures RunCode(sha256, t, scans, k, Emitted)
         == if !AllFreshPass(scans) then CodeOf(FreshAll(scans), true, Emitted)
            else if Vouched(sha256, t, scans, k) then Some(0) else Some(1)
  {
    if AllFreshPass(scans) {
      RunCodeOfPassing(sha256, w, t, scans, k);
    } else {
      RunCodeOfFailing(sha256, w, t, scans, k);
    }
  }

  /** Two caches, whatever runs filled them, give a run one exit code iff some package does
      not pass anyway, or both runs vouch for what their walks reach, or neither does. */
  lemma ExitCodesAgreeIff(sha256: Hash, w: World, t: Table, u: Table, scans: seq<Scan>, k: Around)
    requires TableTrue(w, t) && TableTrue(w, u) && RunAgrees(w, scans)
    ensures RunCode(sha256, t, scans, k, Emitted) == RunCode(sha256, u, scans, k, Emitted) <==>
              !AllFreshPass(scans) || (Vouched(sha256, t, scans, k) <==> Vouched(sha256, u, scans, k))
  {
    RunCodeIs(sha256, w, t, scans, k);
    RunCodeIs(sha256, w, u, scans, k);
  }

  // ------------------------------------------------------------------
  // Where every leftover is replaced
  // ------------------------------------------------------------------

  /** Two walks over the same edges, with the same git verdicts, roots and limits. */
  ghost predicate Alike(x: Walking, y: Walking) {
    && x.roots == y.roots && x.breach == y.breach
    && x.p.maxDepth == y.p.maxDepth && x.p.onDepthLimit == y.p.onDepthLimit
    && (forall n :: x.p.edges(n) == y.p.edges(n))
    && (forall n: NodeId :: n.Git? ==> x.p.scan(n) == y.p.scan(n))
  }

  lemma AlikeReach(x: Walking, y: Walking)
    requires Alike(x, y)
    ensures forall r, n :: Reaches(x.p, r, n) <==> Reaches(y.p, r, n)
    ensures forall r :: NoCut(DfsWalk(x.p, r).1) <==> NoCut(DfsWalk(y.p, r).1)
  {
    forall r, n, j: nat ensures Hops(x.p, r, n, j) <==> Hops(y.p, r, n, j) {
      HopsAgree(x.p, y.p, r, n, j);
    }
    forall r ensures NoCut(DfsWalk(x.p, r).1) <==> NoCut(DfsWalk(y.p, r).1) {
      ShapeIgnoresVerdicts(x.p, y.p, r);
    }
  }

  lemma AlikeClean(x: Walking, y: Walking)
    requires Alike(x, y)
    ensures OtherwiseClean(x) <==> OtherwiseClean(y)
    ensures forall name :: Needs(x, name) <==> Needs(y, name)
  {
    AlikeReach(x, y);
    assert forall n :: NodeClean(x, n) <==> NodeClean(y, n);
  }

  lemma AlikeFails(x: Walking, y: Walking)
    requires Alike(x, y) && forall n :: x.p.scan(n) == y.p.scan(n)
    ensures x.Fails() == y.Fails()
  {
    AlikeReach(x, y);
    NoFailureVouchesForEveryRoot(x.p, x.roots, x.breach, Outcome(if x.breach.Some? then None else WorstOfRoots(x.p, x.roots), x.breach, [], []));
    NoFailureVouchesForEveryRoot(y.p, y.roots, y.breach, Outcome(if y.breach.Some? then None else WorstOfRoots(y.p, y.roots), y.breach, [], []));
    assert forall n :: Clean(x.p, n) <==> Clean(y.p, n);
  }

  /** Every unattributed row that the walk may read is one that a flat scan of its commit
      could write. */
  ghost predicate Replaced(t: Table, scans: seq<Scan>, k: Around) {
    forall name :: Pins(k, name) && Leftover(t, RowKey(k, name)) ==> Written(scans, RowKey(k, name))
  }

  lemma ReplacedLeavesNone(sha256: Hash, t: Table, scans: seq<Scan>, k: Around)
    requires AllAnswerable(scans)
    ensures Replaced(t, scans, k) <==> NoLeftovers(k, ScanAll(sha256, t, scans).0)
  {
    forall name | Pins(k, name)
      ensures Leftover(ScanAll(sha256, t, scans).0, RowKey(k, name)) <==>
                Leftover(t, RowKey(k, name)) && !Written(scans, RowKey(k, name))
    {
      LeftoverStaysIff(sha256, t, scans, RowKey(k, name));
    }
  }

  lemma ReplacedIsFresh(sha256: Hash, w: World, t: Table, scans: seq<Scan>, k: Around)
    requires Kept(w, t) && RunAgrees(w, scans) && Walkable(w, k) && Replaced(t, scans, k)
    ensures Alike(WalkAfter(sha256, t, scans, k), Given(sha256, k, map[], FreshListing(scans)))
  {
    var t1 := ScanAll(sha256, t, scans).0;
    FlatKeeps(sha256, w, t, scans);
    ReplacedLeavesNone(sha256, t, scans, k);
    NoLeftoversIsFresh(sha256, w, k, t1, Registered(ListAfter(sha256, t, scans)));
    NoLeftoversIsFresh(sha256, w, k, map[], Registered(FreshListing(scans)));
  }

  function FreshListing(scans: seq<Scan>): (list: seq<Listed>) {
    Listing(scans, FreshAll(scans))
  }

  lemma ReplacedAreAlike(sha256: Hash, w: World, t: Table, scans: seq<Scan>, k: Around)
    requires Kept(w, t) && RunAgrees(w, scans) && Walkable(w, k) && Replaced(t, scans, k)
    ensures Alike(WalkAfter(sha256, t, scans, k), WalkAfter(sha256, map[], scans, k))
  {
    ReplacedIsFresh(sha256, w, t, scans, k);
    ReplacedIsFresh(sha256, w, map[], scans, k);
  }

  /** When the exit code of a run with the walk is that of an empty cache, its leftovers
      replaced: iff some package does not pass anyway, or something but registry verdicts
      fails the walk anyway, or both runs show every name the walk needs, or neither does. */
  lemma ExitCodeIsTransparentIff(sha256: Hash, w: World, t: Table, scans: seq<Scan>, k: Around)
    requires Kept(w, t) && RunAgrees(w, scans) && Walkable(w, k) && Replaced(t, scans, k)
    ensures var x := WalkAfter(sha256, map[], scans, k);
            RunCode(sha256, t, scans, k, Emitted) == RunCode(sha256, map[], scans, k, Emitted) <==>
              !AllFreshPass(scans) || !OtherwiseClean(x)
              || (AllNeedsShown(x, ListAfter(sha256, t, scans)) <==> AllNeedsShown(x, ListAfter(sha256, map[], scans)))
  {
    ExitCodesAgreeIff(sha256, w, t, map[], scans, k);
    ReplacedAreAlike(sha256, w, t, scans, k);
    AlikeClean(WalkAfter(sha256, t, scans, k), WalkAfter(sha256, map[], scans, k));
  }

  ghost predicate HitsSpelledAlike(sha256: Hash, t: Table, scans: seq<Scan>) {
    forall i :: 0 <= i < |scans| && Hit(sha256, t, scans, i) ==> scans[i].pkg == scans[i].fetched.value.name
  }

  lemma SpelledAlikeListing(sha256: Hash, w: World, t: Table, scans: seq<Scan>)
    requires TableTrue(w, t) && RunAgrees(w, scans) && HitsSpelledAlike(sha256, t, scans)
    ensures ListAfter(sha256, t, scans) == FreshListing(scans)
  {
    var (results, anew) := (ScanAll(sha256, t, scans).1, FreshAll(scans));
    ResultCount(sha256, t, scans);
    forall i | 0 <= i < |scans| ensures results[i].package == anew[i].package && results[i].result == anew[i].result {
      ShownIsTransparent(sha256, w, t, scans, i);
      assert Shown(results[i]) == AllShown(results)[i] && Shown(anew[i]) == AllShown(anew)[i];
    }
  }

  /** If besides every package that either run serves is asked for as its registry spells
      it, then the two runs differ neither in what the walk sees nor in the exit code. */
  lemma SpelledAlikeIsTransparent(sha256: Hash, w: World, t: Table, scans: seq<Scan>, k: Around, output: Output)
    requires Kept(w, t) && RunAgrees(w, scans) && Walkable(w, k) && Replaced(t, scans, k)
    requires HitsSpelledAlike(sha256, t, scans) && HitsSpelledAlike(sha256, map[], scans)
    ensures ListAfter(sha256, t, scans) == ListAfter(sha256, map[], scans)
    ensures RunCode(sha256, t, scans, k, output) == RunCode(sha256, map[], scans, k, output)
  {
    SpelledAlikeListing(sha256, w, t, scans);
    SpelledAlikeListing(sha256, w, map[], scans);
    ReplacedAreAlike(sha256, w, t, scans, k);
    AlikeFails(WalkAfter(sha256, t, scans, k), WalkAfter(sha256, map[], scans, k));
    FlagsAreFresh(sha256, w, t, scans);
    FlagsAreFresh(sha256, w, map[], scans);
    SameCode(ScanAll(sha256, t, scans).1, FreshAll(scans), WalkAfter(sha256, t, scans, k).Fails(), output);
    SameCode(ScanAll(sha256, map[], scans).1, FreshAll(scans), WalkAfter(sha256, map[], scans, k).Fails(), output);
  }

  lemma SameCode(results: seq<CheckResult>, anew: seq<CheckResult>, walkFails: bool, output: Output)
    requires SameFlagged(results, anew)
    ensures CodeOf(results, walkFails, output) == CodeOf(anew, walkFails, output)
  {
  }

  // ------------------------------------------------------------------
  // Runs whose exit code depends on the cache
  // ------------------------------------------------------------------

  /** One direct dependency, without edges in the lockfile and with these in its manifest. */
  function Alone(root: NodeId, git: GitNode, children: seq<NodeId>, maxDepth: nat): Around {
    Around(_ => [], [], _ => git, _ => Edges(children), [root], maxDepth, FloorWarn, 1 + |children|)
  }

  lemma {:induction false} FewElements(nodes: seq<NodeId>)
    ensures |Elements(nodes)| <= |nodes|
  {
    if nodes != [] {
      FewElements(nodes[..|nodes| - 1]);
      ElementsStep({}, nodes);
      assert {} + Elements(nodes) == Elements(nodes);
      OneMore(Elements(nodes[..|nodes| - 1]), nodes[|nodes| - 1]);
      assert {} + Elements(nodes[..|nodes| - 1]) == Elements(nodes[..|nodes| - 1]);
    }
  }

  lemma FewFit(limit: nat, nodes: seq<NodeId>)
    requires |nodes| <= limit
    ensures Charged(limit, {}, nodes).0.None?
  {
    FewElements(nodes);
    assert {} + Elements(nodes) == Elements(nodes);
    BreachIffTooManyDistinct(limit, {}, nodes);
  }

  lemma AloneFits(root: NodeId, git: GitNode, children: seq<NodeId>, maxDepth: nat, edges: NodeId -> EdgeResult)
    requires edges(root) == Edges(if root.Git? then children else []) || edges(root) == Edges([])
    ensures BreachOver(Alone(root, git, children, maxDepth), edges).None?
  {
    OneRoot(_ => [], Alone(root, git, children, maxDepth), map[], _ => Pass, edges, root);
    FewFit(1 + |children|, [] + [root] + Manifest(edges, root));
  }

  lemma LeafRoot(x: Walking, root: NodeId)
    requires x.roots == [root] && x.breach.None? && x.p.edges(root) == Edges([])
    ensures OtherwiseClean(x) <==> (root.Git? ==> x.p.scan(root) == Pass)
    ensures forall name :: Needs(x, name) <==> root.Registry? && name == root.name
  {
    forall n ensures Reaches(x.p, root, n) <==> n == root {
      assert Hops(x.p, root, root, 0);
      LeafReachesItself(x.p, root);
    }
    assert root in x.roots && Reaches(x.p, root, root);
    assert DescendAll(x.p, root, [], 0, Enter(x.p, root, 0, EMPTY)).1.diags == [];
  }

  lemma LeafReachesItself(p: Params, root: NodeId)
    requires p.edges(root) == Edges([])
    ensures forall n :: Reaches(p, root, n) ==> n == root
  {
    forall n, j: nat | Hops(p, root, n, j) ensures n == root {
      LeafHops(p, root, n, j);
    }
  }

  lemma {:induction false} LeafHops(p: Params, root: NodeId, n: NodeId, j: nat)
    requires p.edges(root) == Edges([]) && Hops(p, root, n, j)
    ensures n == root
    decreases j
  {
    if j > 0 {
      var m :| Hops(p, root, m, j - 1) && Child(p, m, n);
      LeafHops(p, root, m, j - 1);
    }
  }

  /** A package that passes and that its registry spells otherwise: the run that scans it
      fails in the walk, the run that serves it does not. */
  lemma HitChangesExitCode(sha256: Hash, w: World, t: Table, s: Scan, version: string, git: GitNode, maxDepth: nat)
    requires TableTrue(w, t) && ScanAgrees(w, s) && s.RegistryScan? && Served(t, s)
    requires AggregateResults(s.details).0 == "pass" && s.pkg != s.fetched.value.name
    ensures var k := Alone(Registry(s.pkg, version, RegistryName(s.registry)), git, [], maxDepth);
            && RunCode(sha256, t, [s], k, Emitted) == Some(0)
            && RunCode(sha256, map[], [s], k, Emitted) == Some(1)
  {
    var root := Registry(s.pkg, version, RegistryName(s.registry));
    var k := Alone(root, git, [], maxDepth);
    RegistryRun(sha256, w, t, s, root, git, maxDepth);
    RegistryRun(sha256, w, map[], s, root, git, maxDepth);
    assert !Served(map[], s);
  }

  lemma RegistryRunListing(sha256: Hash, w: World, t: Table, s: Scan)
    requires TableTrue(w, t) && ScanAgrees(w, s) && s.RegistryScan? && s.fetched.Some?
    requires AggregateResults(s.details).0 == "pass"
    ensures ListAfter(sha256, t, [s]) == [Listed(s.pkg, if Served(t, s) then s.pkg else s.fetched.value.name, "pass", false)]
    ensures AllFreshPass([s])
  {
    ResultIsTransparent(sha256, w, t, [s], 0);
    assert [s][..0] == [];
  }

  lemma RegistryRun(sha256: Hash, w: World, t: Table, s: Scan, root: NodeId, git: GitNode, maxDepth: nat)
    requires TableTrue(w, t) && ScanAgrees(w, s) && s.RegistryScan? && s.fetched.Some? && root.Registry? && root.name == s.pkg
    requires AggregateResults(s.details).0 == "pass" && s.pkg != s.fetched.value.name
    ensures RunCode(sha256, t, [s], Alone(root, git, [], maxDepth), Emitted) == Some(if Served(t, s) then 0 else 1)
  {
    var k := Alone(root, git, [], maxDepth);
    RunCodeIs(sha256, w, t, [s], k);
    RegistryRunListing(sha256, w, t, s);
    var (x, list) := (WalkAfter(sha256, t, [s], k), ListAfter(sha256, t, [s]));
    AloneFits(root, git, [], maxDepth, x.p.edges);
    LeafRoot(x, root);
    assert list[0].shown == s.pkg <==> IsShown(list, s.pkg);
  }

  /** A git root scanned flat and passing, in a run whose walk passes over its tree. */
  ghost predicate PassingRoot(s: Scan, git: GitNode) {
    && s.GitScan? && ClassifyRef(s.ref).Pinned? && s.tree.Some? && GitVerdict(s) == "pass"
    && git.target == Some(s.ref) && git.tree.Some? && AggregateResults(git.details).0 == "pass" && git.db.lookupOk
  }

  lemma GitRun(sha256: Hash, w: World, t: Table, s: Scan, k: Around)
    requires TableTrue(w, t) && ScanAgrees(w, s) && s.GitScan? && s.tree.Some? && GitVerdict(s) == "pass"
    ensures RunCode(sha256, t, [s], k, Emitted) == if Vouched(sha256, t, [s], k) then Some(0) else Some(1)
    ensures ListAfter(sha256, t, [s]) == [Listed(s.name, s.name, "pass", true)]
    ensures WalkAfter(sha256, t, [s], k)
         == Given(sha256, k, ScanOne(sha256, t, s).0, [Listed(s.name, s.name, "pass", true)])
  {
    RunCodeIs(sha256, w, t, [s], k);
    ResultIsTransparent(sha256, w, t, [s], 0);
    assert [s][..0] == [];
  }

  /** The walk over a git root alone, whose edges it takes for none. */
  lemma GitLeafRun(sha256: Hash, w: World, t: Table, s: Scan, git: GitNode, children: seq<NodeId>, maxDepth: nat)
    requires TableTrue(w, t) && ScanAgrees(w, s) && s.GitScan? && s.tree.Some? && GitVerdict(s) == "pass"
    requires EdgesOver(Alone(Git(s.name, s.ref), git, children, maxDepth), ScanOne(sha256, t, s).0)(Git(s.name, s.ref)) == Edges([])
    ensures var (k, root) := (Alone(Git(s.name, s.ref), git, children, maxDepth), Git(s.name, s.ref));
            RunCode(sha256, t, [s], k, Emitted) == Some(
              if GivenParams(sha256, k, ScanOne(sha256, t, s).0, Registered([Listed(s.name, s.name, "pass", true)])).scan(root) == Pass
              then 0 else 1)
  {
    var root := Git(s.name, s.ref);
    var k := Alone(root, git, children, maxDepth);
    GitRun(sha256, w, t, s, k);
    var x := WalkAfter(sha256, t, [s], k);
    AloneFits(root, git, children, maxDepth, x.p.edges);
    LeafRoot(x, root);
  }

  /** A root whose flat scan fails to replace a leftover that blocks: the walk reads the
      leftover, and the run that an empty cache lets pass fails. */
  lemma LeftoverChangesExitCode(sha256: Hash, w: World, t: Table, s: Scan, git: GitNode, maxDepth: nat)
    requires TableTrue(w, t) && ScanAgrees(w, s) && PassingRoot(s, git) && !s.db.writeOk
    requires var (k, key) := (Alone(Git(s.name, s.ref), git, [], maxDepth), GitKey(s.name, s.ref));
             StillRead(sha256, k, t, s.name) && Leftover(t, key) && t[key].result == "block"
    ensures var k := Alone(Git(s.name, s.ref), git, [], maxDepth);
            && RunCode(sha256, t, [s], k, Emitted) == Some(1)
            && RunCode(sha256, map[], [s], k, Emitted) == Some(0)
  {
    var (root, list) := (Git(s.name, s.ref), [Listed(s.name, s.name, "pass", true)]);
    var k := Alone(root, git, [], maxDepth);
    GitLeafRun(sha256, w, t, s, git, [], maxDepth);
    GitLeafRun(sha256, w, map[], s, git, [], maxDepth);
    LeftoverDecides(sha256, k, t, Registered(list), root);
    FreshRootPasses(sha256, k, Registered(list), root, git);
  }

  lemma FreshRootPasses(sha256: Hash, k: Around, registry: NodeId -> Verdict, root: NodeId, git: GitNode)
    requires root.Git? && k.roots == [root] && At(k, root.name).details == git.details && At(k, root.name).tree.Some?
    requires At(k, root.name).target.Some? && AggregateResults(git.details).0 == "pass"
    ensures GivenParams(sha256, k, map[], registry).scan(root) == Pass
  {
    OneRoot(sha256, k, map[], registry, EdgesOver(k, map[]), root);
    if Pins(k, root.name) {
      RenewedVerdict(sha256, k, map[], root.name);
    }
  }

  /** A root whose flat scan fails to replace a leftover with a subtree digest: the walk
      takes the root for a leaf, and the run that fails over an empty cache for a
      dependency of that root passes. */
  lemma LeftoverHidesChildren(sha256: Hash, w: World, t: Table, s: Scan, git: GitNode, child: NodeId, maxDepth: nat)
    requires TableTrue(w, t) && ScanAgrees(w, s) && PassingRoot(s, git) && !s.db.writeOk
    requires var key := GitKey(s.name, s.ref);
             UsableRow(t, key) && Leftover(t, key) && t[key].result == "pass" && t[key].subtreeDigest.Some?
    requires child.Registry? && child.name != s.name
    ensures var k := Alone(Git(s.name, s.ref), git, [child], maxDepth);
            && RunCode(sha256, t, [s], k, Emitted) == Some(0)
            && RunCode(sha256, map[], [s], k, Emitted) == Some(1)
  {
    var (root, list) := (Git(s.name, s.ref), [Listed(s.name, s.name, "pass", true)]);
    var k := Alone(root, git, [child], maxDepth);
    LeftoverDecides(sha256, k, t, Registered(list), root);
    GitLeafRun(sha256, w, t, s, git, [child], maxDepth);
    ChildIsWalked(sha256, w, s, git, child, maxDepth);
  }

  /** Over an empty cache the child is walked, and no result shows it. */
  lemma ChildIsWalked(sha256: Hash, w: World, s: Scan, git: GitNode, child: NodeId, maxDepth: nat)
    requires ScanAgrees(w, s) && PassingRoot(s, git) && !s.db.writeOk && child.Registry? && child.name != s.name
    ensures RunCode(sha256, map[], [s], Alone(Git(s.name, s.ref), git, [child], maxDepth), Emitted) == Some(1)
  {
    var (root, list) := (Git(s.name, s.ref), [Listed(s.name, s.name, "pass", true)]);
    var k := Alone(root, git, [child], maxDepth);
    GitRun(sha256, w, map[], s, k);
    UnshownChild(WalkAfter(sha256, map[], [s], k), list, root, child);
  }

  lemma UnshownChild(x: Walking, list: seq<Listed>, root: NodeId, child: NodeId)
    requires root in x.roots && x.p.edges(root) == Edges([child]) && child.Registry? && !IsShown(list, child.name)
    ensures !AllNeedsShown(x, list)
  {
    assert Hops(x.p, root, root, 0) && Child(x.p, root, child);
    assert Hops(x.p, root, child, 1);
    assert Reaches(x.p, root, child);
    assert Needs(x, child.name);
  }

  function FooNode(): GitNode {
    GitNode("foo", Some(Zeros()), Some([]), [], "", Ok)
  }

  lemma CrossedRow(sha256: Hash)
    ensures var (t, key) := (RunEvents(sha256, map[], CrossedRun(ChildrenDigest(sha256, []))), GitKey("foo", Zeros()));
            && UsableRow(t, key) && Leftover(t, key) && t[key].result == "block"
            && t[key].subtreeDigest == Some(ChildrenDigest(sha256, []))
  {
    CrossedRunBlocks(sha256, ChildrenDigest(sha256, []));
  }

  lemma FooPasses(db: Db)
    ensures PassingRoot(FooScan(db), FooNode()) && ScanAgrees(AllPassing(), FooScan(db))
  {
    ZerosArePinned();
    PinnedGitVerdict(AllPassing(), FooScan(db));
    assert AggregateResults([]).0 == "pass";
  }

  /** Such tables are reached: after the crossed run, a run with the commit as its only
      root, whose write fails, exits with 1, and with 0 over an empty cache. */
  lemma LeftoverIsReached(sha256: Hash)
    ensures AllAgree(AllPassing(), CrossedRun(ChildrenDigest(sha256, [])))
    ensures var (s, k) := (FooScan(Db(true, true, false)), Alone(Git("foo", Zeros()), FooNode(), [], 0));
            && ScanAgrees(AllPassing(), s) && Walkable(AllPassing(), k)
            && RunCode(sha256, RunEvents(sha256, map[], CrossedRun(ChildrenDigest(sha256, []))), [s], k, Emitted) == Some(1)
            && RunCode(sha256, map[], [s], k, Emitted) == Some(0)
  {
    var (t, s) := (RunEvents(sha256, map[], CrossedRun(ChildrenDigest(sha256, []))), FooScan(Db(true, true, false)));
    CrossedRow(sha256);
    CrossedRunAgrees(ChildrenDigest(sha256, []));
    FooPasses(Db(true, true, false));
    ReachableIsTrue(sha256, AllPassing(), map[], CrossedRun(ChildrenDigest(sha256, [])));
    LeftoverChangesExitCode(sha256, AllPassing(), t, s, FooNode(), 0);
  }
}
