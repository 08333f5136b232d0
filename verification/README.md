# dep-scan, modelled and proved in Dafny

dep-scan is a supply-chain scanner: it reads lockfiles, scans every dependency with a
set of policies, remembers verdicts in a cache keyed by package, version and registry,
walks git dependencies transitively, and gates a package manager on the outcome. This
project models the parts of it that decide something and proves what they guarantee,
over all inputs and all runs.

| file | models |
|---|---|
| `Verdicts.dfy` | policy details, the worst-wins aggregation, the transitive rollup |
| `HashGate.dfy`, `VerdictCache.dfy` | the content-hash gate, the table and its class, the attribution and git gates |
| `ScanLoop.dfy` | the registry and git arms of the flat scan, its loop, the exit code, the install gate |
| `NodeScanner.dfy`, `CacheRuns.dfy` | the walk's reader, prefetcher and refresher of git rows; every run over the cache |
| `Transparency.dfy`, `FetchCounts.dfy` | what can be told from a result that the cache answered; how often a pinned commit is fetched |
| `CachedWalk.dfy`, `Leftovers.dfy` | the transitive scan over the cache: edges, budget, dropped rows, verdicts; what a table from before leaves for it |
| `FullRuns.dfy` | a whole run with documents, walk and exit code, over two caches |
| `Resolvers.dfy` | the two tables the walk keys by package name alone, origins and flat verdicts |
| `Migration.dfy` | opening a cache file written by an earlier version |
| `TransitiveWalk.dfy`, `TransitiveScan.dfy`, `Pool.dfy` | the depth-first walk, the node budget and per-root outcome, the bounded fetch pool |
| `WalkDepth.dfy`, `NpmWalk.dfy` | what the graph alone says about a walk; the walk over an npm lockfile |
| `Bytes.dfy`, `Text.dfy`, `Base64.dfy` | byte, number and text encodings with their inverses |
| `Framing.dfy`, `SubtreeGate.dfy` | length-framed digests; the subtree digest over dependencies and their verdicts |
| `Dsse.dfy`, `SignedNote.dfy`, `MerklePath.dfy` | DSSE envelopes, signed notes and their verification, inclusion proofs |
| `Graph.dfy`, `DependencyGraph.dfy` | dependency identities and the adjacency map |
| `NpmGraph.dfy`, `NpmPackages.dfy`, `NpmFlat.dfy`, `NpmNested.dfy` | npm lockfiles, all three versions, flat and as graphs |
| `CargoGraph.dfy`, `GoSum.dfy`, `Requirements.dfy` | Cargo, Go and Python lockfiles |
| `Sbom.dfy`, `Mermaid.dfy`, `EditDistance.dfy` | CycloneDX cross-references, the documentation linter's blocks, the edit distance of names |

Objects the source updates are classes (`Cache`, `Database`, `WalkState`, `NodeBudget`,
`GitResolver`, `DependencyGraph`, `NameTable`), its loops are methods with invariants, and each such
method is tied to a specification function about which the properties are proved. A hash
or signature scheme is a function-valued parameter; where a fact needs a hash to be
injective, that is a stated hypothesis. `dafny verify dfyconfig.toml` checks everything.

## Where the code and its documentation part ways

The model follows the code; these are the places where that matters.

- A result served from the cache is not the result of a scan: it shows the requested name
  where a full scan shows the registry's, and no findings (`src/main.rs:1383-1399` against
  `src/main.rs:1720-1730`). So a second run's document lacks every vulnerability of the
  packages it served (`FullRuns.VulnerabilitiesSurviveIff`), and its date if all were
  (`FullRuns.DateSurvivesIff`); and with the transitive scan enabled the exit code can
  depend on the cache (`FullRuns.ExitCodeIsTransparentIff`, `FullRuns.HitChangesExitCode`).
- A git row without attribution that the flat scan fails to replace is still the walk's
  verdict on its package, and with a subtree digest it hides the package's dependencies: a
  run can fail where an empty cache lets it pass, and pass where an empty cache makes it
  fail (`Leftovers.LeftoverDecides`, `FullRuns.LeftoverIsReached`,
  `FullRuns.LeftoverHidesChildren`).
- Go modules are never served from the cache: their metadata carries no hash when the
  cache is consulted, and the checksum database fills it in later
  (`Transparency.SecondScanIsServedIff`).
- The git gate compares a row's hash with itself, so it asks only for a usable hash and
  detects no tampering of the row (`VerdictCache.GitGateOnlyAsksForUsableHash`).
- A row with a subtree digest stores no policy details, so the flat scan never serves it,
  fetches again, and clears the digest. The subtree gate is therefore reached only for
  roots whose flat scan fetched or wrote nothing (`FetchCounts.WarmRootOnlyWithoutFlatScan`),
  and then over no children (`Framing.WarmRootSurvivesIff`).
- The prefetch of edges does not consult the cache for a verdict, and no root is warm after
  its flat scan. So a run with the transitive scan fetches a pinned root twice in all, unless
  its row was attributed before (`FetchCounts.WalkFetchesTwice`). A run that ends with a
  refresh, as it does when the depth limit is not zero, the budget holds and the root's own
  edges are known, leaves the row unattributed for the next one
  (`FetchCounts.TransitiveRunFetchesTwice`).
- The walk reads cached git rows without asking for attribution, and a digest refresh
  overwrites a row with whatever its scan told: a warn if it neither read a row nor fetched
  the tree, and the verdict of another ref, even of a branch, if the name resolves to that
  (`Transparency.RefreshFalsifiesIff`, `Transparency.BranchVerdictUnderPinnedKey`).
- Git origins and flat verdicts are looked up by name alone, so with two commits of a git
  package, or two versions of a registry package, one is scanned or judged as the other
  (`Resolvers.RootsResolveToThemselvesIff`, `Resolvers.FlatVerdictsSurviveIff`). Flat
  verdicts are filed under the name a result shows and looked up under the requested one,
  so a package its registry spells otherwise warns (`Resolvers.RespelledPackageWarns`).
- A node within the depth limit can stay unscanned, and the order of sibling edges can
  change the verdict (`TransitiveWalk.SiblingOrderMatters`). Neither happens when no node
  at exactly the limit has a shorter path (`WalkDepth.NoShorterWayIsComplete`,
  `WalkDepth.SiblingOrderIsIrrelevant`).
- An npm requirement that does not resolve is promised to be rolled up as at least a warn
  (`src/lockfile.rs:596-605`), but leaves no trace in the graph
  (`NpmWalk.UnresolvedIsSilent`, `NpmWalk.PassesDespiteUnresolvedIff`).
- Of two entries of one npm package only one version has a node; what the other entry
  requires hangs on that node, so its own root is walked as a leaf and the other version is
  blamed (`NpmWalk.RequirementsMoveToWinner`, `NpmWalk.WinnerIsBlamed`).
- Display strings of identities do collide when a version holds an `@`, or a name does after
  its first character (`Graph.NodeIdStringCollides`); digests are computed over these
  strings, so such a child can be replaced unnoticed (`SubtreeGate.ReplacedChildIsServed`),
  and diagnostics are deduplicated by them.
- The tree size of an inclusion proof is the proof's own claim, and the check accepts other
  sizes than the tree's (`MerklePath.AcceptedAtAnySizeIff`,
  `MerklePath.OtherSizeIsAccepted`); the checkpoint that would bind it is optional
  (`src/sigstore_verify.rs:599-604`).
- A task that panics keeps its permit, and the pool can then wait forever
  (`Pool.CanHangIff`).
- The Cargo graph builder indexes out of range iff some package has an empty name, and the
  requirements reader slices inside a character on some non-ASCII lines
  (`CargoGraph.CargoToGraph`, `Requirements.LinePanicsIff`, `Requirements.NonAsciiNamePanics`).
- Of nested duplicates in an npm lockfile the last key in map order wins, not the inner
  one (`NpmPackages.OuterVersionCanWin`).
- The edge walk over a version 1 npm lockfile loses what lies below a name that has no
  version anywhere (`NpmNested.LostEdges`).
- Git components are given npm purls (`Sbom.PurlCollidesIff`).

## Model

| member | source | states |
|---|---|---|
| Verdicts.Aggregate | src/policy/mod.rs:81-97 | the two scanning loops return the worst outcome and the reason of the first detail that has it |
| Verdicts.AggregateMeaning | src/policy/mod.rs:75-97 | aggregation blocks iff some detail blocks, warns iff some warns and none blocks, else passes, whatever the order; only a pass has no reason |
| Verdicts.CombineIsWorst | src/transitive/rollup.rs:41-77 | rolling verdicts up through synthetic details loses nothing: it is the plain worst-wins fold |
| HashGate.GateIsEquivalence | src/main.rs:110-134 | the gate is symmetric and transitive, accepts a hash against itself iff it is present, non-empty and not SHA-1, and accepts no other kind on either side |
| HashGate.Sha1Spelling | src/main.rs:80-134 | exactly the hashes spelled `sha1:` in any letter case count as SHA-1 |
| VerdictCache.Cache.Lookup | src/cache.rs:317-345 | returns the row of exactly this key, or none |
| VerdictCache.Cache.Insert | src/cache.rs:372-413 | replaces the row of this key by one stamped with the program's version and no source kind; every other row stays |
| VerdictCache.Cache.InsertGit | src/cache.rs:430-458 | the same for the key (name, commit, "git"), marked as git-sourced and without a provenance identity |
| VerdictCache.Cache.Invalidate | src/cache.rs:461-467 | removes this row and nothing else |
| VerdictCache.GitGateOnlyAsksForUsableHash | src/main.rs:1092-1121 | called as the scan loop calls it, the git gate hits iff the ref is pinned and the row's hash is present, non-empty and not SHA-1 |
| ScanLoop.RunRegistryScan | src/main.rs:1349-1731 | one registry package: the new table and the result are those of the specification on every branch, hit, mismatch, SHA-1 bypass, unattributed row, fetch error and failed database operations included |
| ScanLoop.ConsultCache | src/main.rs:1349-1410 | the registry arm serves a row iff it can be read, passes the hash gate and is attributed; a failed hash gate removes the row unless its hash starts with `sha1:` |
| ScanLoop.RunGitScan | src/main.rs:1043-1288 | one git package: pinned refs may be served, mutable refs and failed fetches are not written, and the result and table are those of the specification |
| ScanLoop.RunLoop | src/main.rs:1036-1731 | the results of all packages in order, with the error flag set iff some result is an error and the failure flag iff some result warns or blocks |
| ScanLoop.OneResultPerPackage | src/main.rs:1036-1731 | exactly one result per package in order on every branch, with its registry and resolved version, and an error iff the registry could not be reached |
| ScanLoop.RunCheck | src/main.rs:1773-1888 | the exit code computed from the flags is the one determined by the results and the transitive outcome |
| ScanLoop.ExitCodeMeaning | src/main.rs:1881-1888 | the code is 2 iff some package could not be scanned or no offline key was there, and 0 iff the output was emitted, every result passes and nothing failed transitively |
| ScanLoop.RunInstall | src/main.rs:2011-2022 | the package manager starts iff the names are valid, the output was emitted, no result is an error, and everything passed or force was given; its exit code is passed on |
| NodeScanner.RunNodeScan | src/transitive/scanner.rs:181-240 | one git node of the walk: verdict and table of the specification, warn for an unknown origin or a failed fetch, and no write for a mutable ref |
| NodeScanner.RunRefreshDigest | src/transitive/scan.rs:861-913 | a root's row is rewritten with the verdict of its new scan, its old content hash, the digest and no details, only for a pinned ref whose row has a content hash |
| CacheRuns.ReachableIsSound | src/cache.rs:376-458 | from any table: a row is the one that was there, or one this program wrote, and then it is attributed, git-sourced iff its key says git, its key is then a pinned commit with a usable hash or the hash of the row it refreshed, its result is the aggregate of the details it stores, and a row with a subtree digest stores none |
| CacheRuns.MutableRefsAreNeverCached | src/main.rs:1080-1270 | from any table no run stores a row under a mutable ref, and scanning one gives a fresh result and changes nothing; what a refresh stores under a pinned key is the subject of Transparency.BranchVerdictUnderPinnedKey |
| CacheRuns.FailedFetchFailsClosed | src/main.rs:1226-1270 | over any table a scan without a tree changes nothing and passes only by serving a stored pass |
| CacheRuns.GitRowOrigin | src/main.rs:1226-1270 | from any table: a git row that stores details is the one that was there, or was written by a scan that fetched the tree at that very commit |
| CacheRuns.ServedGitVerdictHasProvenance | src/main.rs:1092-1180 | from a table without attributed rows, every git verdict the flat scan serves is the aggregate of details from an earlier scan of the tree at that pinned commit, never of a branch |
| FetchCounts.ScanCountIs | src/main.rs:1080-1270 | with database operations succeeding and nothing refreshed or forgotten, flat scan and walk together fetch a pinned commit exactly once if some scan finds the first row wanting, and otherwise never; after a fetch the row is served and cold |
| FetchCounts.PinnedCommitIsScannedOnce | src/main.rs:1080-1270 | the flat arm and the walk's scans fetch each pinned commit successfully at most once, from any table; the prefetch is counted by FetchCounts.FetchCountIs |
| FetchCounts.FetchCountIs | src/transitive/scan.rs:529-560 | the exact number of successful fetches of a commit that is not warm: the scans' one, if any, and one for every prefetch that can succeed |
| FetchCounts.WalkFetchesTwice | src/transitive/scan.rs:529-560 | a run of flat scan, prefetch and walk fetches its root's pinned commit twice, or once if the row was attributed, and leaves it attributed |
| FetchCounts.TransitiveRunFetchesTwice | src/transitive/scan.rs:861-913 | with a refresh at its end the count stays, and the row is left unattributed |
| NodeScanner.PrefetchTrees | src/transitive/scan.rs:529-560 | exactly the roots that are not warm are prefetched, without asking for a cache hit and without writing |
| FetchCounts.WarmRootOnlyWithoutFlatScan | src/transitive/scan.rs:757-784 | after its flat scan a root is warm iff it was before and that scan had no tree or could not write |
| CacheRuns.RegistryRowOrigin | src/main.rs:1349-1718 | every registry row is the one the run started with, or the row of a full scan of its own key that has stood unchanged since |
| CacheRuns.ServedVerdictHasProvenance | src/main.rs:1349-1718 | every registry verdict served from the cache repeats the details, result and time of an earlier full scan of the same key, recorded under an equal hash that is neither empty nor SHA-1 |
| Transparency.CacheIsTransparent | src/main.rs:1349-1731 | if full scans are a function of key and normalized hash, or of the pinned commit, then after any run every scan that can be answered gives the empty cache's result field for field, except that a hit is marked, and shows a registry package under the requested name without findings, and a git package with another sentence and perhaps other details |
| Transparency.FlatRunIsTransparent | src/main.rs:1036-1731 | a whole flat run gives, in order, the results of scanning every package with an empty cache up to what a hit shows, and the same error and failure flags |
| Transparency.FlatExitCodeIsTransparent | src/main.rs:1881-1888 | with the same transitive outcome and output, the exit code is that of the run over an empty cache |
| Transparency.HitShowsIff | src/main.rs:1383-1399 | the mark of the cache is there iff the package was served; apart from it the result is the empty cache's iff nothing was served, or a registry package was asked for as the registry spells it and has no findings |
| FullRuns.VulnerabilitiesSurviveIff | src/sbom.rs:99-116 | the vulnerabilities of a run's document are those of the run over an empty cache iff no registry package served has findings |
| FullRuns.DocumentSurvivesIff | src/sbom.rs:76-116 | components and vulnerabilities together are those of the empty cache iff every registry package served is asked for as its registry spells it and has no findings |
| FullRuns.DateSurvivesIff | src/main.rs:1583-1600 | the query that dates the document is that of a run that serves nothing iff its package is not served, and there is no date iff every package queried was served |
| FullRuns.SpelledAlikeIsTransparent | src/main.rs:1743-1888 | if every unattributed git row the walk may read is one a flat scan could write, and every registry package served is asked for as its registry spells it, then the walk sees the same flat verdicts as over an empty cache and the exit code is the same, whatever the output stage does |
| FullRuns.RunCodeIs | src/main.rs:1773-1888 | the exit code of flat scan and walk in closed form: decided by the fresh results unless all pass, and then 0 iff the budget holds, everything the walk reaches over the table the flat scan left is clean, nothing is cut, and every registry name it reaches is shown by a result |
| FullRuns.ExitCodesAgreeIff | src/main.rs:1743-1888 | over any two reachable caches a run has one exit code iff some package does not pass anyway, or both runs vouch for what their walks reach, or neither does |
| FullRuns.ExitCodeIsTransparentIff | src/main.rs:1743-1888 | where every unattributed git row the walk may read is one a flat scan of its commit could write: the exit code is that of an empty cache iff some package does not pass anyway, something other than registry verdicts fails the walk anyway, or the two runs agree on whether every registry name the walk reaches is shown |
| FullRuns.LeftoverChangesExitCode | src/transitive/scanner.rs:193-205 | where one such row blocks and is not replaced: the run exits with 1, and with 0 over an empty cache |
| FullRuns.LeftoverHidesChildren | src/transitive/scan.rs:529-550 | where one such row passes and has a subtree digest: the run exits with 0, and with 1 over an empty cache, for a dependency that was not walked |
| FullRuns.LeftoverIsReached | src/transitive/scan.rs:878-910 | a concrete first run after which a second run, whose write fails, exits with 1, and with 0 over an empty cache |
| CachedWalk.RunTransitiveScan | src/transitive/scan.rs:460-670 | prefetch, budget, dropped rows and walks: the breach and the worst verdict are those of the edges, rows and scans over the table the flat scan left |
| CachedWalk.ChargeEverything | src/transitive/scan.rs:497-572 | the budget breaks iff charging the lockfile, the roots and the manifests of fetched git roots in order does |
| CachedWalk.InvalidateStaleParents | src/transitive/scan.rs:796-849 | each root's row with a digest is dropped unless the digest is that of its children's verdicts now, which are scanned and perhaps written on the way |
| CachedWalk.ScansAreStable | src/transitive/scanner.rs:181-240 | however often and in whatever order nodes are scanned, each keeps one verdict: what a scan writes is what the next one finds |
| Leftovers.LeftoverStaysIff | src/main.rs:1080-1270 | an unattributed git row is gone after the flat scan iff some scan of its commit could write, and is otherwise as it was |
| Leftovers.NoLeftoversIsFresh | src/transitive/scan.rs:529-849 | without unattributed rows left, edges, budget and git verdicts of the walk are those of an empty cache |
| Leftovers.LeftoverDecides | src/transitive/scan.rs:796-849 | what the walk makes of a root's usable row, attributed or not: the row's result is its verdict whatever the tree is, unless the row's digest is not that of no children and it can be dropped; and a row with a digest makes the root a leaf either way |
| Leftovers.ReachableIsKept | src/cache.rs:376-458 | from a table without attributed rows every run leaves a table whose attributed rows say what full scans say and whose rows with a digest are never served by the flat scan |
| FullRuns.WalkFailsIff | src/transitive/scan.rs:185-302 | when every flat result passes, the walk fails iff something else is not clean or a registry name it reaches is shown by no result |
| FullRuns.HitChangesExitCode | src/main.rs:1383-1399 | a passing package that its registry spells otherwise: the run that scans it exits with 1, the run that serves it with 0 |
| Transparency.SecondScanIsServedIff | src/main.rs:1564-1718 | an immediate second scan is served iff the metadata hash is usable and equals the recorded hash, which rules out Go |
| Transparency.NodeScanIsTransparentIff | src/transitive/scanner.rs:193-240 | for any start table: after every run in which each refresh scans the commit it refreshes and reads its row or fetches its tree, the walk gives every node with a tree the verdict of an empty cache, iff each usable row of a pinned commit in the start table, attributed or not, says what that commit's tree does |
| Transparency.RefreshFalsifiesIff | src/transitive/scan.rs:861-913 | for every refresh, whatever its name resolves to: it makes a true table false iff the ref is pinned, its row is usable and can be looked up and written, and what the scan told (a warn, the row of the commit it resolved to, or the verdict of the tree it fetched) is not the verdict of the refreshed commit |
| Transparency.BranchVerdictUnderPinnedKey | src/transitive/scan.rs:878-910 | a pinned commit scanned, then refreshed through a root of the same name at a branch, holds the branch's verdict without details |
| Transparency.RefreshCanFalsify | src/transitive/scan.rs:878-910 | a concrete run from an empty cache, true to a world in which every tree passes, ends in a table that blocks a pinned commit |
| Resolvers.GitResolver.Record | src/transitive/scan.rs:246-249 | filling the table in order, the last root of a name stays |
| Resolvers.GitResolver.Resolve | src/transitive/scan.rs:256-268 | the answer is what the last root of the name was recorded with, whatever commit is asked for, and none iff no root has the name |
| Resolvers.RootsResolveToThemselvesIff | src/transitive/scan.rs:486-495 | every git root resolves to its own origin iff no two roots of one name have different origins |
| Resolvers.FlatVerdictsSurviveIff | src/main.rs:1743-1766 | every registry package gets its own flat verdict in the walk iff the last result shown under the name it was requested by agrees with its own, or there is none and it warns itself; an unshown name never passes |
| Resolvers.SpelledAlikeSurviveIff | src/transitive/scan.rs:277-302 | where every result shows the requested name, that is: registry results of one name agree, whatever their versions, and with a git result of that name that comes last |
| Resolvers.RespelledPackageWarns | src/main.rs:1743-1766 | a passing package shown under another name than the requested one warns in the walk |
| Resolvers.BlockedVersionCanPass | src/transitive/scan.rs:277-302 | with a blocked and a later passing version of one name, the walk passes both |
| Migration.Database.Open | src/cache.rs:216-303 | creating the table if missing and adding each later column the names read beforehand lack |
| Migration.UpgradeMeaning | src/cache.rs:216-303 | from any earlier table with distinct columns and the five base columns: every later column exactly once, old columns and cells in place, new cells NULL |
| Migration.UpgradeIsIdempotent | src/cache.rs:216-303 | opening again changes nothing |
| Migration.CellsSurvive | src/cache.rs:236-303 | reading any column of any row gives the old cell if the column existed and NULL otherwise |
| Migration.OldRowsAreNeverServed | src/main.rs:148-166 | a row whose table lacked either attribution column is readable and fails the attribution gate |
| Framing.ReadPairsInverts | src/cache.rs:91-102 | a decoder recovers every list of framed pairs whose lengths fit 64 bits |
| Framing.FramePairsInjective | src/main.rs:194-206 | two framings are equal iff the pair lists are |
| Framing.ComputeSubtreeDigest | src/cache.rs:88-104 | sorting and feeding the hasher piece by piece hashes the framing of the sorted pairs |
| Framing.SortedIsUnique | src/cache.rs:90-93 | a multiset of pairs has only one sorted arrangement |
| Framing.SubtreePreimageIsMultiset | src/cache.rs:88-104 | the hashed bytes of two child lists are equal iff the lists are permutations of each other |
| Framing.StaleSubtreeIsNeverServed | src/cache.rs:128-135 | under an injective hash a row with a digest passes the gate iff the children can be fingerprinted now and are the same multiset of child and verdict |
| Framing.ChangedChildForcesMiss | src/cache.rs:106-135 | re-grading, adding or dropping any child forces a miss |
| SubtreeGate.DigestDeterminesChildren | src/cache.rs:88-135 | under an injective hash and for children with '@'-free versions, two digests are equal iff they stand for the same multiset of identities and verdicts |
| SubtreeGate.ReplacedChildIsServed | src/cache.rs:88-135 | with an '@' in the version, or in the name after its first character, another named child has the same digest, whatever the hash |
| Framing.WarmRootSurvivesIff | src/transitive/scan.rs:533-550 | a warm root, looked at without children, keeps its row iff it was recorded without any |
| Framing.ComputeGitTreeHash | src/main.rs:194-206 | the loop over files hashes the framing of their paths and contents |
| Framing.GitTreeHashDeterminesTree | src/main.rs:194-206 | under an injective hash two trees hash alike iff they hold the same files in the same order |
| Base64.DecodeEncode | src/signed_note.rs:166-172 | strict base64 of section 4 of RFC 4648: decoding an encoding gives the bytes back |
| Base64.EncodeDecode | src/signed_note.rs:166-172 | every accepted text is the encoding of what it decodes to |
| Dsse.DssePae | src/registry/npm_attestation.rs:551-568 | the pushes build the pre-authentication encoding with decimal lengths |
| Dsse.PaeInjective | src/registry/npm_attestation.rs:551-568 | the encoding determines payload type and payload |
| Dsse.SignedEnvelopeVerifies | src/interchange_sign.rs:107-129 | for every payload the envelope decodes to it and verifies under a correct scheme |
| Dsse.TamperedEnvelopeIsAnotherMessage | src/interchange_sign.rs:551-575 | an envelope accepted with the same signature is one over a different message iff its payload or type was changed |
| Dsse.Ed25519KeyId | src/interchange_sign.rs:228-249 | the key id is the lower-case hex of the digest of the raw public key |
| SignedNote.FindBoundary | src/signed_note.rs:104-130 | the line loop over byte offsets returns the first em-dash line's offset and whether an empty line precedes it |
| SignedNote.SearchFindsDash | src/signed_note.rs:104-130 | that offset is the byte position of the first line start followed by an em dash |
| SignedNote.DashMeaning | src/signed_note.rs:104-130 | the position found starts a line with an em dash and no earlier line does |
| SignedNote.ByteSlicesAreText | src/signed_note.rs:104-153 | cutting the UTF-8 bytes at the offset found, and one before it, gives exactly the signature section and the text |
| SignedNote.Parse | src/signed_note.rs:104-194 | the parser, with its byte offsets, computes the character-level specification, errors included |
| SignedNote.PrintedNoteParses | src/signed_note.rs:104-194 | printing any well-formed note and parsing it gives back the text and the signatures |
| SignedNote.AcceptedShape | src/signed_note.rs:104-194 | every accepted input is its text, a newline and the rest from the first em-dash line; the text is non-empty, newline-terminated and without em-dash lines |
| SignedNote.RoundTripIff | src/signed_note.rs:104-194 | a note survives printing and parsing iff it is well-formed |
| SignedNote.ReprintingPreservesMeaning | src/signed_note.rs:104-194 | printing what was parsed parses to the same note |
| SignedNote.Ed25519KeyId | src/signed_note.rs:205-216 | the key id is the first four bytes of the digest of name, newline, algorithm byte and key |
| SignedNote.KeyIdPreimageInjective | src/signed_note.rs:205-216 | for keys of one size the hashed bytes determine the name and the key |
| SignedNote.VerifyEd25519 | src/signed_note.rs:225-306 | succeeds iff the note and key parse and some line has the pinned name, the derived key id, a 64-byte signature and a valid signature over the text |
| SignedNote.VerifyEcdsa | src/signed_note.rs:331-401 | succeeds, with the parsed note, iff some line has the pinned name and key id and a DER signature that is valid over the text |
| SignedNote.LineOrderAndExtraLines | src/signed_note.rs:275-306 | acceptance is invariant under permuting the lines and monotone under adding lines |
| SignedNote.SignedLineVerifies | src/signed_note.rs:225-306 | a note with a line signed under the pinned key verifies whatever other lines stand around it |
| MerklePath.VerifyMerklePath | src/sigstore_verify.rs:797-847 | the loop over shifted counters gives the outcome of the specification: zero size, index out of range, path too long, too short, another head, or included |
| MerklePath.EveryLeafIsIncluded | src/sigstore_verify.rs:797-847 | for trees of every size, and any hash, the audit path of every leaf is accepted (section 2.1.1 of RFC 6962) |
| MerklePath.AcceptedIff | src/sigstore_verify.rs:797-847 | if node hashes do not collide, a proof that claims the tree's own size is accepted against its head iff the index is in range and digest and path are exactly that leaf's |
| MerklePath.AcceptedAtAnySizeIff | src/sigstore_verify.rs:797-847 | for every claimed index and size, if besides leaf digests are no pair's hash: accepted iff the index is below the size, and digest and path are those of some leaf whose way up turns as that of the claimed position does |
| MerklePath.TurnsFixIndex | src/sigstore_verify.rs:797-847 | in a tree of one size the turns fix the index |
| MerklePath.OtherSizeIsAccepted | src/sigstore_verify.rs:797-847 | the first leaf of three is accepted for a size of three and of four, for every hash |
| MerklePath.InnerDigestIsAccepted | src/sigstore_verify.rs:797-847 | without the prefix that tells leaves from pairs, an inner digest is accepted as a leaf for a size of two |
| MerklePath.FindCollision | src/sigstore_verify.rs:797-847 | for hashes that do collide: from an accepted proof of another digest, two different pairs with one hash are found along the path |
| TransitiveWalk.WalkState.VisitNode | src/transitive/engine.rs:277-322 | visiting a node updates path, verdicts, diagnostics and rows as the value-level walk does |
| TransitiveWalk.WalkVerdictIsWorst | src/transitive/engine.rs:220-360 | a root's verdict is the worst of all recorded node verdicts and diagnostic floors: cycles and reuse lose nothing |
| TransitiveWalk.WalkSound | src/transitive/engine.rs:220-360 | the walk ends with an empty path, each scanned node has one row at a real distance, every diagnostic is true, and every edge of a scanned node was followed or reported |
| TransitiveWalk.UnscannedIsBehindCut | src/transitive/engine.rs:325-360 | every reachable unscanned node lies behind a reported depth cut, on a path of the given length |
| TransitiveWalk.ScannedSetIsReachable | src/transitive/engine.rs:220-360 | only reachable nodes are scanned, and all of them iff every cut node was scanned along another branch |
| TransitiveWalk.VerdictMeaning | src/transitive/engine.rs:220-360 | pass iff every scanned node is clean and nothing was cut; block iff some scanned node blocks or a cut blocks |
| TransitiveWalk.PassVouchesForEverythingReachable | src/transitive/engine.rs:220-360 | a walk passes iff everything reachable at any distance is clean and nothing was cut |
| TransitiveWalk.ReachableBlockIsNeverLost | src/transitive/engine.rs:220-360 | with a reachable blocked node the walk never passes, and it blocks if that node was scanned or cuts block |
| TransitiveWalk.ShallowGraphIsExact | src/transitive/engine.rs:220-360 | when no node is one hop beyond the limit away, the walk scans exactly the reachable nodes, passes iff all are clean and blocks iff one blocks |
| TransitiveWalk.CompleteWithinDepthIff | src/transitive/engine.rs:325-360 | read off a finished walk: every node within the depth was scanned iff no cut node that stayed unscanned has a path within the depth |
| WalkDepth.NoShorterWayIsComplete | src/transitive/engine.rs:325-360 | a test on the graph: if no node with a path of exactly the limit's length has a shorter one, every node within the depth is scanned |
| WalkDepth.NoShorterWayIsExact | src/transitive/engine.rs:220-360 | under that test the scanned nodes are exactly those within the depth, and the cut ones exactly those one edge beyond it |
| WalkDepth.NoShorterWayVerdict | src/transitive/engine.rs:220-360 | under it the verdict is known from the graph: pass iff everything within the depth is clean and nothing lies one edge beyond, block iff something within blocks or a cut blocks |
| WalkDepth.SiblingOrderIsIrrelevant | src/transitive/engine.rs:325-360 | under it two walks that differ only in the order of sibling edges scan the same nodes, cut the same nodes and have the same verdict |
| WalkDepth.ShapeIgnoresVerdicts | src/transitive/engine.rs:220-360 | what is scanned, cut and diagnosed depends on the edges and the limit only, not on any verdict |
| TransitiveWalk.LayeredGraphIsComplete | src/transitive/engine.rs:325-360 | graphs in which all paths to a node have one length are scanned completely within the depth |
| TransitiveWalk.SiblingOrderMatters | src/transitive/engine.rs:325-360 | in a diamond at the depth limit the verdict is warn with one order of siblings and block with the other |
| TransitiveWalk.SiblingOrderCounterexample | src/transitive/engine.rs:325-360 | two walks with equal scans, limit and edge sets, and different verdicts |
| TransitiveWalk.CycleReportIsExact | src/transitive/engine.rs:325-360 | a reported cycle is a reachable one, and a walk that cut nothing reports one iff some reachable node lies on one |
| TransitiveScan.NodeBudget.Charge | src/transitive/budget.rs:143-160 | a node already charged is free, and a new one over the limit is refused and not counted |
| TransitiveScan.BreachIffTooManyDistinct | src/transitive/budget.rs:108-160 | charging a list breaches iff it holds more distinct nodes than the limit |
| TransitiveScan.RunRoots | src/transitive/scan.rs:600-670 | the worst verdict over all roots, with their rows once for each node and diagnostics once for each display string, or nothing but the breach |
| TransitiveScan.NoFailureVouchesForEveryRoot | src/transitive/scan.rs:185-195 | the exit code is left alone iff the budget held, every node reachable from any root is clean, and nothing was cut |
| Pool.ConcurrencyIsBounded | src/transitive/pool.rs:69-85 | in no state of any interleaving do more tasks execute than there are permits |
| Pool.ResultsInInputOrder | src/transitive/pool.rs:108-152 | when the pool is done every task that returned has its own verdict at its own place |
| Pool.RunsAreShort | src/transitive/pool.rs:108-152 | a run without spurious wake-ups takes at most five steps per task |
| Pool.HungMeansLostPermits | src/transitive/pool.rs:69-152 | in a stuck state every permit was lost to a panic and some task is left over |
| Pool.CanHangIff | src/transitive/pool.rs:108-152 | some interleaving hangs iff at least as many tasks panic as there are permits and there are more tasks than permits |
| Graph.NodeIdStringCollides | src/transitive/scan.rs:56-80 | another named identity has the same string iff the version holds an '@', or the name does after its first character |
| Graph.NodeIdStringIdentifies | src/transitive/scan.rs:56-80 | among identities with '@'-free versions the string determines the identity |
| DependencyGraph.DependencyGraph.FillFromEdges | src/lockfile.rs:71-79 | the loop over pairs fills the adjacency map of the specification |
| DependencyGraph.FromEdgesMeaning | src/lockfile.rs:66-95 | the edges of a node are its pairs' targets in order, duplicates and cycles included, and the nodes are exactly the endpoints |
| DependencyGraph.EdgeTotalOfPushed | src/lockfile.rs:54-95 | every pushed edge is in the map exactly once |
| NpmGraph.NamesHoldWinners | src/lockfile.rs:535-570 | a name has a node iff it occurs with a version, and the node carries the last such version |
| NpmGraph.GraphMeaning | src/lockfile.rs:572-615 | the nodes are the named ones, and a name's edges are the resolvable requirements of all its occurrences in order |
| NpmPackages.EntryNameMeaning | src/lockfile.rs:540-552 | the name is what follows the last `node_modules/` of the key |
| NpmPackages.PackagesToGraph | src/lockfile.rs:535-618 | the two passes build the graph of the specification |
| NpmPackages.NamesAreDecided | src/lockfile.rs:540-570 | a name's node carries the version of the last entry with that name and a version |
| NpmPackages.PackagesGraphMeaning | src/lockfile.rs:535-618 | one node per decided name, as edges every resolvable dependency of every entry with that name, and every target a node |
| NpmPackages.OuterVersionCanWin | src/lockfile.rs:537-539 | a nested copy whose key sorts before the outer one loses to it |
| NpmWalk.UnresolvedIsSilent | src/lockfile.rs:596-605 | a lockfile and the same lockfile without its unresolved requirements have one graph, so no walk tells them apart |
| NpmWalk.PassesDespiteUnresolvedIff | src/lockfile.rs:596-605 | the walk passes iff everything reachable passes its scan and nothing is cut; with the promised floor it would pass iff, besides, nothing reachable misses a requirement |
| NpmWalk.MissingDependencyPasses | src/lockfile.rs:596-605 | a package that requires one that is not in the lockfile passes |
| NpmWalk.RequirementsMoveToWinner | src/lockfile.rs:572-615 | what a versioned entry requires is one edge below its name's node, whichever entry required it, and the entry's own root is a leaf unless its version is that node's |
| NpmWalk.WinnerIsRootIff | src/lockfile.rs:267-312 | that node is itself a root iff some entry with its name and deciding version has a `resolved` that is absent or a string |
| NpmWalk.WinnerIsBlamed | src/lockfile.rs:572-615 | a blocked requirement of a version that did not win leaves that version's root to its own scan, and never lets the winner's root pass |
| NpmFlat.GitSourceSpelling | src/lockfile.rs:213-259 | every git source can be traced back to the spelling of the field it was read from |
| NpmFlat.ParsePackages | src/lockfile.rs:267-312 | the loop with its skips collects exactly what each entry contributes |
| NpmFlat.GraphNodeIsListedIff | src/lockfile.rs:267-312 | the flat list knows a graph node iff an entry with that name and version has a `resolved` that is absent or a string |
| NpmFlat.ListedNameHasNode | src/lockfile.rs:267-312 | every listed dependency with a version has its name in the graph |
| NpmFlat.ReadersAgreeIff | src/lockfile.rs:267-312 | with distinct names both readers see the same versioned packages iff no versioned entry has a `resolved` that is not a string |
| NpmNested.CollectNodes | src/lockfile.rs:644-669 | the recursive walk terminates and records all entries in preorder |
| NpmNested.BuildEdges | src/lockfile.rs:673-709 | the recursive walk terminates and pushes the edges of the entries it visits, in preorder |
| NpmNested.NestedToGraph | src/lockfile.rs:623-638 | the two walks together build the graph of the specification |
| NpmNested.NodeIsLastVersion | src/lockfile.rs:644-669 | one node per name, carrying its last non-empty version in preorder |
| NpmNested.NestedGraphMeaning | src/lockfile.rs:623-709 | the edges of a name are the resolvable requirements of its visited entries in preorder, and every endpoint is a node |
| NpmNested.LostEdges | src/lockfile.rs:679-682 | the graph lacks exactly the edges below names without a node, and is complete iff there are none |
| NpmNested.VersionedTreeIsComplete | src/lockfile.rs:623-709 | when every entry has a version, the edges of a name are the resolvable requirements of all its entries |
| CargoGraph.CargoToGraph | src/lockfile.rs:727-853 | panics iff some entry has an empty name, and otherwise builds the graph of the specification |
| CargoGraph.UnnamedEntryIsOutOfRange | src/lockfile.rs:743-853 | two entries of which one is unnamed leave a list of one package, which the second pass indexes at one |
| CargoGraph.FindPackage | src/lockfile.rs:823-833 | the first package in file order with the hint's name and, if given, its version |
| CargoGraph.CargoGraphMeaning | src/lockfile.rs:743-853 | when every entry is named: the nodes are the packages' nodes, a node's edges are the resolved hints of the entries with that node in file order, targets are nodes, and edges plus unresolved hints make up all string hints |
| GoSum.ParseGoSum | src/lockfile.rs:908-948 | the loop with its seen set returns the distinct modules of the lines that have three fields |
| GoSum.FirstOccurrencesMeaning | src/lockfile.rs:908-948 | the result has the elements of the list, ordered by where each first occurs, without duplicates |
| GoSum.ReparseIsIdentityIff | src/lockfile.rs:908-948 | rendering and reading again is the identity iff no version is empty or still ends in `/go.mod` |
| GoSum.GoSumToGraph | src/lockfile.rs:892-905 | the graph has the parsed modules as nodes and no edges |
| GoSum.OneNodePerModule | src/lockfile.rs:892-905 | distinct modules give distinct nodes |
| Requirements.FindVersionOperator | src/lockfile.rs:406-416 | the loop over character offsets computes the search of the specification |
| Requirements.SearchPanicsIff | src/lockfile.rs:406-416 | the search slices inside a character iff one splits a two-byte slice before any operator starts |
| Requirements.AsciiSearch | src/lockfile.rs:406-416 | on ASCII text it never panics and finds the first operator |
| Requirements.ParseRequirements | src/lockfile.rs:353-399 | the line loop returns the requirements of all lines, or panics |
| Requirements.LinePanicsIff | src/lockfile.rs:353-416 | a line panics iff it has no pin, is no comment or flag, and a character splits a slice before any operator |
| Requirements.ReaderPanicsIff | src/lockfile.rs:353-399 | the reader panics iff some line does |
| Requirements.NonAsciiNamePanics | src/lockfile.rs:406-416 | a bare name of an ASCII letter and a two-byte one panics |
| Requirements.PinnedLineReads | src/lockfile.rs:363-376 | a pinned line reads as exactly its name and version |
| Sbom.RenderVulnerabilities | src/sbom.rs:99-116 | the nested loops list every finding under its package's reference, in order |
| Sbom.BomRefsDistinct | src/sbom.rs:83-84 | equal references have equal names and indices, even for names with '-' and digits |
| Sbom.ReferenceIntegrity | src/sbom.rs:76-116 | references are pairwise distinct, every vulnerability refers to a component, and the entries of a component are exactly its package's findings in order |
| Sbom.PurlCollidesIff | src/sbom.rs:36-58 | two results share a purl iff their purl types agree and name, '@' and version read alike |
| Mermaid.FindBlocks | scripts/check-mermaid.py:68-83 | the line loop yields the blocks from each opening fence to the next closing fence |
| Mermaid.BlocksAreFenced | scripts/check-mermaid.py:68-83 | each block is a contiguous slice between an opening and a closing fence without a closing line inside, and starts after the block before |
| Mermaid.OpeningOutsideIsUnclosed | scripts/check-mermaid.py:68-83 | nothing else is a block: an opening fence outside every block is never closed |
| Mermaid.LintBlock | scripts/check-mermaid.py:86-138 | the loop over a block reports what the rules say about each line that is not a comment |
| Mermaid.BlockIssuesMeaning | scripts/check-mermaid.py:86-138 | an issue is reported iff the rules say it about the line it quotes, under that line's number |
| Mermaid.IssuesPointAtTheirLines | scripts/check-mermaid.py:86-138 | an issue's number is the number, counted from one, of the file line it quotes |
| EditDistance.Levenshtein | src/typosquat.rs:31-81 | for names of at most 256 characters the two-row loop returns the least number of insertions, deletions and substitutions that turn one into the other; for longer ones the largest 64-bit count |
| EditDistance.DistanceIsLeast | src/typosquat.rs:31-81 | the table's entry is attained by a sequence of edits, and no sequence of edits, anywhere in the string and in any order, is shorter |

## Left out

- HTTP clients, async and subprocess code, VCS fetching, Fulcio and Rekor: what they answer is part of a step's inputs.
- SQLite, file permissions and temporary files: the table is a map, and each step says which of its operations succeed.
- Cryptography and PEM decoding: hashes, signers and verifiers are parameters with the stated hypotheses.
- JSON and TOML syntax: lockfiles start as ordered entries, and stored policy details as NULL, unreadable text or a list.
- Unicode case folding: hash prefixes are lower-cased as ASCII only.
- Wording of reasons and diagnostics: a result's reason says which sentence it is and from what, not its text.
- VEX and OSV rendering: like the CycloneDX document they list the findings of the results; how a hit empties that list is stated on the latter.
- The individual policies and what they look at: a full scan's details are an input; only the mutable-ref policy is modelled.
- Diagnostics for unfetchable git nodes: such nodes are warned about by their scan.
- `maintainer_history` and the previous maintainers read from it.
- The manifest edge providers: the walk takes edges as a function; the prefetch of git roots is modelled by what it fetches, and the invalidation pre-pass appears as a deletion.
- Reading and extracting lockfiles by format and file name, the flat readers of Cargo lockfiles and of version 1 npm lockfiles, and the requirements graph: they would only add easy members.
- `resolve_signer` and the keyless signer: a short case distinction; its outcome is the `Output` of the exit code.
- SPDX rendering: its identifiers are not unique by design.
- The linter's regular expressions: the rules are a function of the line and the kind of diagram.
- The iteration order of hash maps: node tables are walked in an arbitrary order, which the result does not depend on.
- 32-bit and 64-bit counters: the node budget and all lengths are unbounded, except that framed lengths are assumed below 2^64.
- The rest of the typosquatting check: stripping affixes and comparing the distance, divided by the longer length, with a threshold.
- Transparency.CacheIsTransparent: leaves open the sentence and the details a served git package shows; a row written by the walk lacks the mutable-ref line.
- Transparency.CacheIsTransparent: says nothing about a git scan whose tree cannot be fetched, where a served verdict and a fail-closed one differ.
- Transparency.CacheIsTransparent: starts from a table without attributed rows, as an earlier version or an empty file leaves it; what is there on a later run is covered as reached by the runs before.
- CachedWalk.RunTransitiveScan: the database and the fetcher answer for one git package alike throughout one walk, which is what lets the walk read verdicts from a function; the rows the walk writes on its way are described by CachedWalk.ScansAreStable, not by the method.
- FullRuns.ExitCodeIsTransparentIff: where an unattributed row is not replaced, the two codes are compared by FullRuns.ExitCodesAgreeIff; the pinned commits of the walk can be fetched.
- FetchCounts.TransitiveRunFetchesTwice: speaks of a run over one root whose tree can be fetched and whose database operations succeed; a budget breach before the prefetch saves that fetch.
- WalkDepth.NoShorterWayIsComplete: one way only; which graphs beyond these are scanned completely depends on the order of their edges, and the exact answer for a finished walk is TransitiveWalk.CompleteWithinDepthIff.
- Pool.ResultsInInputOrder: a panicking task has no result, and the caller's unwrap of it is not modelled.
