/** The verdict cache: one row per (name, version, registry), written by scans and
    read only through the content-hash and attribution gates. */
module VerdictCache {
  import opened Verdicts
  import opened HashGate

  datatype Key = Key(name: string, version: string, registry: string)

  /** The `policies_json` cell: NULL, text that does not parse, or a details list. */
  datatype PoliciesCell = Null | Corrupt | Stored(details: seq<PolicyDetail>)

  datatype Row = Row(
    result: string,
    scannedAt: string,
    contentHash: Option<string>,
    provenanceIdentity: Option<string>,
    sourceKind: Option<string>,
    subtreeDigest: Option<string>,
    depScanVersion: Option<string>,
    policies: PoliciesCell)

  type Table = map<Key, Row>

  const VERSION := "dep-scan"

  function RegistryRow(result: string, now: string, contentHash: Option<string>, identity: Option<string>,
                       subtreeDigest: Option<string>, policies: PoliciesCell): Row {
    Row(result, now, contentHash, identity, None, subtreeDigest, Some(VERSION), policies)
  }

  function GitRow(result: string, now: string, contentHash: Option<string>, subtreeDigest: Option<string>,
                  policies: PoliciesCell): Row {
    Row(result, now, contentHash, None, Some("git"), subtreeDigest, Some(VERSION), policies)
  }

  function Find(t: Table, key: Key): Option<Row> {
    if key in t then Some(t[key]) else None
  }

  /** The table behind the connection. The version stamp of a row is the binary's
      own; callers cannot choose it. */
  class Cache {
    var table: Table

    constructor ()
      ensures table == map[]
    {
      table := map[];
    }

    method Lookup(name: string, version: string, registry: string) returns (row: Option<Row>)
      ensures row == Find(table, Key(name, version, registry))
    {
      var key := Key(name, version, registry);
      row := if key in table then Some(table[key]) else None;
    }

    /** Insert or replace a registry-sourced row. */
    method Insert(name: string, version: string, registry: string, result: string, now: string,
                  contentHash: Option<string>, identity: Option<string>, subtreeDigest: Option<string>,
                  policies: PoliciesCell)
      modifies this
      ensures table == old(table)[Key(name, version, registry) :=
                RegistryRow(result, now, contentHash, identity, subtreeDigest, policies)]
    {
      table := table[Key(name, version, registry) :=
                 Row(result, now, contentHash, identity, None, subtreeDigest, Some(VERSION), policies)];
    }

    /** Insert or replace a git-sourced row, keyed by its commit. */
    method InsertGit(name: string, commitSha: string, result: string, now: string,
                     contentHash: Option<string>, subtreeDigest: Option<string>, policies: PoliciesCell)
      modifies this
      ensures table == old(table)[Key(name, commitSha, "git") :=
                GitRow(result, now, contentHash, subtreeDigest, policies)]
    {
      table := table[Key(name, commitSha, "git") :=
                 Row(result, now, contentHash, None, Some("git"), subtreeDigest, Some(VERSION), policies)];
    }

    method Invalidate(name: string, version: string, registry: string)
      modifies this
      ensures table == old(table) - {Key(name, version, registry)}
    {
      table := table - {Key(name, version, registry)};
    }

    method Clear()
      modifies this
      ensures table == map[]
    {
      table := map[];
    }
  }

  // ------------------------------------------------------------------
  // The gates
  // ------------------------------------------------------------------

  /** Attached to a served verdict: when it was recorded, and by which version. */
  datatype Provenance = Provenance(scannedAt: string, depScanVersion: string)

  /** A row is served only with its details, and only if they still aggregate to the
      result it carries. */
  function AttributedHit(row: Row): Option<(seq<PolicyDetail>, Provenance)> {
    if row.depScanVersion.Some? && row.policies.Stored? && AggregateResults(row.policies.details).0 == row.result
    then Some((row.policies.details, Provenance(row.scannedAt, row.depScanVersion.value)))
    else None
  }

  datatype RefKind = Pinned | Mutable

  predicate IsHexDigit(c: char) {
    '0' <= c <= '9' || 'a' <= c <= 'f' || 'A' <= c <= 'F'
  }

  /** A full commit hash is pinned; any other ref is mutable. (Hex digits are one
      byte each, so the byte length is the number of characters.) */
  function ClassifyRef(ref: string): RefKind {
    if (|ref| == 40 || |ref| == 64) && forall i :: 0 <= i < |ref| ==> IsHexDigit(ref[i]) then Pinned else Mutable
  }

  /** Whether a git row is reused without fetching. */
  predicate GitCacheHit(kind: RefKind, row: Option<Row>, expectedHash: Option<string>) {
    kind.Pinned? && row.Some? && VerifyHash(row.value.contentHash, expectedHash)
  }

  /** The scan passes the row's own hash as the expected one, so on this path the
      gate only asks for a usable hash; it compares nothing with the repository. */
  lemma GitGateOnlyAsksForUsableHash(kind: RefKind, row: Option<Row>)
    ensures GitCacheHit(kind, row, if row.Some? then row.value.contentHash else None)
       <==> kind.Pinned? && row.Some? && Usable(row.value.contentHash)
  {
    if row.Some? {
      GateIsEquivalence(row.value.contentHash, None, None);
    }
  }
}
