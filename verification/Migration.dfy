/** Opening a cache file: the table is created if it is missing, and columns that came
    later are added to whatever table is found. */
module Migration {
  import opened Verdicts
  import opened Text
  import opened VerdictCache

  /** The name of a column. */
  datatype Column =
    | Name | Version | Registry | Result | ScannedAt
    | ContentHash | ProvenanceIdentity | SourceKind | SubtreeDigest | DepScanVersion | PoliciesJson
    | Other(name: string)

  /** A stored table: column names and rows of cells, `None` for NULL. */
  datatype StoredTable = StoredTable(columns: seq<Column>, rows: seq<seq<Option<string>>>)

  const BASE_COLUMNS: seq<Column> := [Name, Version, Registry, Result, ScannedAt]
  const LATER_COLUMNS: seq<Column> :=
    [ContentHash, ProvenanceIdentity, SourceKind, SubtreeDigest, DepScanVersion, PoliciesJson]

  ghost predicate Distinct(columns: seq<Column>) {
    forall i, j :: 0 <= i < j < |columns| ==> columns[i] != columns[j]
  }

  /** A table some earlier version may have left behind. */
  ghost predicate WellFormed(t: StoredTable) {
    && Distinct(t.columns)
    && (forall c :: c in BASE_COLUMNS ==> c in t.columns)
    && (forall r :: r in t.rows ==> |r| == |t.columns|)
  }

  function WithNull(rows: seq<seq<Option<string>>>): seq<seq<Option<string>>> {
    seq(|rows|, i requires 0 <= i < |rows| => rows[i] + [None])
  }

  /** Adds a column unless the names read beforehand have it. */
  function AddUnless(t: StoredTable, existing: seq<Column>, column: Column): StoredTable {
    if column in existing then t else StoredTable(t.columns + [column], WithNull(t.rows))
  }

  function AddAll(t: StoredTable, existing: seq<Column>, columns: seq<Column>): StoredTable {
    if columns == [] then t
    else AddUnless(AddAll(t, existing, columns[..|columns| - 1]), existing, columns[|columns| - 1])
  }

  function Upgraded(t: StoredTable): StoredTable {
    AddAll(t, t.columns, LATER_COLUMNS)
  }

  class Database {
    var table: Option<StoredTable>

    constructor (found: Option<StoredTable>)
      ensures table == found
    {
      table := found;
    }

    method AddColumn(existing: seq<Column>, column: Column)
      requires table.Some?
      modifies this
      ensures table == Some(AddUnless(old(table).value, existing, column))
    {
      if column !in existing {
        table := Some(StoredTable(table.value.columns + [column], WithNull(table.value.rows)));
      }
    }

    /** Create if missing, read the column names once, then add what they lack. */
    method Open()
      modifies this
      ensures table == Some(Upgraded(if old(table).Some? then old(table).value
                                     else StoredTable(BASE_COLUMNS + LATER_COLUMNS[..2], [])))
    {
      if table.None? {
        table := Some(StoredTable(BASE_COLUMNS + [ContentHash, ProvenanceIdentity], []));
      }
      var existing := table.value.columns;
      AddAllSteps(table.value, existing);
      AddColumn(existing, ContentHash);
      AddColumn(existing, ProvenanceIdentity);
      AddColumn(existing, SourceKind);
      AddColumn(existing, SubtreeDigest);
      AddColumn(existing, DepScanVersion);
      AddColumn(existing, PoliciesJson);
    }
  }

  lemma AddAllSteps(t: StoredTable, existing: seq<Column>)
    ensures LATER_COLUMNS[..2] == [ContentHash, ProvenanceIdentity]
    ensures var t2 := AddUnless(AddUnless(t, existing, ContentHash), existing, ProvenanceIdentity);
            var t4 := AddUnless(AddUnless(t2, existing, SourceKind), existing, SubtreeDigest);
            AddAll(t, existing, LATER_COLUMNS)
            == AddUnless(AddUnless(t4, existing, DepScanVersion), existing, PoliciesJson)
  {
    var l1 := [ContentHash];
    var l2 := l1 + [ProvenanceIdentity];
    var l3 := l2 + [SourceKind];
    var l4 := l3 + [SubtreeDigest];
    var l5 := l4 + [DepScanVersion];
    assert LATER_COLUMNS == l5 + [PoliciesJson] && [] + l1 == l1;
    AddAllPush(t, existing, [], ContentHash);
    AddAllPush(t, existing, l1, ProvenanceIdentity);
    AddAllPush(t, existing, l2, SourceKind);
    AddAllPush(t, existing, l3, SubtreeDigest);
    AddAllPush(t, existing, l4, DepScanVersion);
    AddAllPush(t, existing, l5, PoliciesJson);
  }

  lemma AddAllPush(t: StoredTable, existing: seq<Column>, columns: seq<Column>, column: Column)
    ensures AddAll(t, existing, columns + [column]) == AddUnless(AddAll(t, existing, columns), existing, column)
  {
    assert (columns + [column])[..|columns|] == columns;
  }

  // ------------------------------------------------------------------
  // What an upgrade keeps and adds
  // ------------------------------------------------------------------

  function Cell(t: StoredTable, row: nat, column: Column): Option<string>
    requires row < |t.rows| && column in t.columns && |t.rows[row]| == |t.columns|
  {
    t.rows[row][IndexOf(t.columns, column)]
  }

  /** An upgraded table: the old columns first and once each, every old cell in its
      place, and NULL in every new one. */
  ghost predicate Extends(t1: StoredTable, t: StoredTable) {
    && t.columns <= t1.columns
    && |t1.rows| == |t.rows|
    && forall i :: 0 <= i < |t.rows| ==>
         |t1.rows[i]| == |t1.columns| && t.rows[i] <= t1.rows[i]
         && forall k :: |t.columns| <= k < |t1.columns| ==> t1.rows[i][k].None?
  }

  lemma AddExtends(t1: StoredTable, t: StoredTable, existing: seq<Column>, column: Column)
    requires Extends(t1, t) && forall r :: r in t.rows ==> |r| == |t.columns|
    ensures Extends(AddUnless(t1, existing, column), t)
  {
    forall i | 0 <= i < |t.rows| ensures |t.rows[i]| == |t.columns| {
      assert t.rows[i] in t.rows;
    }
  }

  lemma {:induction false} AddAllExtends(t: StoredTable, columns: seq<Column>)
    requires WellFormed(t) && Distinct(columns)
    ensures Extends(AddAll(t, t.columns, columns), t)
    ensures Distinct(AddAll(t, t.columns, columns).columns)
    ensures forall c :: c in AddAll(t, t.columns, columns).columns <==> c in t.columns || c in columns
  {
    if columns == [] {
      forall i | 0 <= i < |t.rows| ensures |t.rows[i]| == |t.columns| {
        assert t.rows[i] in t.rows;
      }
    } else {
      var (init, c) := (columns[..|columns| - 1], columns[|columns| - 1]);
      AddAllExtends(t, init);
      assert columns == init + [c];
      assert c !in init;
      AddExtends(AddAll(t, t.columns, init), t, t.columns, c);
    }
  }

  /** From any earlier table, opening gives every later column exactly once, keeps the
      old columns and cells where they were, and fills the new cells with NULL. */
  lemma UpgradeMeaning(t: StoredTable)
    requires WellFormed(t)
    ensures WellFormed(Upgraded(t)) && Extends(Upgraded(t), t)
    ensures forall c :: c in Upgraded(t).columns <==> c in t.columns || c in LATER_COLUMNS
  {
    LaterDistinct();
    AddAllExtends(t, LATER_COLUMNS);
    var t1 := Upgraded(t);
    forall r | r in t1.rows ensures |r| == |t1.columns| {
      var i :| 0 <= i < |t1.rows| && t1.rows[i] == r;
    }
  }

  lemma LaterDistinct()
    ensures Distinct(LATER_COLUMNS)
  {
  }

  /** Opening again changes nothing. */
  lemma UpgradeIsIdempotent(t: StoredTable)
    requires WellFormed(t)
    ensures Upgraded(Upgraded(t)) == Upgraded(t)
  {
    UpgradeMeaning(t);
    AddNothing(Upgraded(t), LATER_COLUMNS);
  }

  lemma {:induction false} AddNothing(t: StoredTable, columns: seq<Column>)
    requires forall c :: c in columns ==> c in t.columns
    ensures AddAll(t, t.columns, columns) == t
  {
    if columns != [] {
      AddNothing(t, columns[..|columns| - 1]);
    }
  }

  lemma IndexOfPrefix(a: seq<Column>, b: seq<Column>, c: Column)
    requires a <= b && c in a
    ensures IndexOf(b, c) == IndexOf(a, c) < |a|
  {
    var k :| 0 <= k < |a| && a[k] == c;
    var (i, j) := (IndexOf(a, c), IndexOf(b, c));
    assert i < |a|;
    assert b[i] == a[i] == c;
    assert j <= i && a[j] == b[j];
  }

  /** Every old cell reads as before, and every new one as NULL. */
  lemma CellsSurvive(t: StoredTable, row: nat, column: Column)
    requires WellFormed(t) && row < |t.rows| && column in t.columns + LATER_COLUMNS
    ensures |t.rows[row]| == |t.columns| && |Upgraded(t).rows| == |t.rows|
    ensures |Upgraded(t).rows[row]| == |Upgraded(t).columns| && column in Upgraded(t).columns
    ensures Cell(Upgraded(t), row, column) == if column in t.columns then Cell(t, row, column) else None
  {
    UpgradeMeaning(t);
    var t1 := Upgraded(t);
    assert t.rows[row] in t.rows;
    if column in t.columns {
      IndexOfPrefix(t.columns, t1.columns, column);
    } else {
      var k := IndexOf(t1.columns, column);
      assert t1.columns[k] == column;
      assert forall i :: 0 <= i < |t.columns| ==> t1.columns[i] == t.columns[i] && t.columns[i] in t.columns;
    }
  }

  // ------------------------------------------------------------------
  // Reading an old row through the gates
  // ------------------------------------------------------------------

  /** The columns the lookup selects. */
  predicate Readable(t: StoredTable, row: nat) {
    && row < |t.rows| && |t.rows[row]| == |t.columns|
    && Result in t.columns && ScannedAt in t.columns && ContentHash in t.columns
    && ProvenanceIdentity in t.columns && SourceKind in t.columns && SubtreeDigest in t.columns
    && DepScanVersion in t.columns && PoliciesJson in t.columns
  }

  /** A stored row as the lookup reads it; `parse` reads the details text. */
  function ReadRow(t: StoredTable, row: nat, parse: string -> Option<seq<PolicyDetail>>): Row
    requires Readable(t, row)
  {
    Row(TextOf(Cell(t, row, Result)), TextOf(Cell(t, row, ScannedAt)),
        Cell(t, row, ContentHash), Cell(t, row, ProvenanceIdentity), Cell(t, row, SourceKind),
        Cell(t, row, SubtreeDigest), Cell(t, row, DepScanVersion),
        PoliciesOf(Cell(t, row, PoliciesJson), parse))
  }

  function TextOf(cell: Option<string>): string {
    if cell.Some? then cell.value else ""
  }

  function PoliciesOf(cell: Option<string>, parse: string -> Option<seq<PolicyDetail>>): PoliciesCell {
    if cell.None? then Null
    else if parse(cell.value).None? then Corrupt else PoliciesCell.Stored(parse(cell.value).value)
  }

  /** After opening, every row of any earlier table can be read. */
  lemma UpgradedIsReadable(t: StoredTable, row: nat)
    requires WellFormed(t) && row < |t.rows|
    ensures Readable(Upgraded(t), row)
  {
    UpgradeMeaning(t);
    LaterNames();
    assert BASE_COLUMNS[3] == Result && BASE_COLUMNS[4] == ScannedAt;
    CellsSurvive(t, row, SourceKind);
  }

  lemma LaterNames()
    ensures forall c :: c in [ContentHash, ProvenanceIdentity] ==> c in LATER_COLUMNS
    ensures SourceKind in LATER_COLUMNS && SubtreeDigest in LATER_COLUMNS
    ensures DepScanVersion in LATER_COLUMNS && PoliciesJson in LATER_COLUMNS
  {
    assert LATER_COLUMNS[0] == ContentHash && LATER_COLUMNS[1] == ProvenanceIdentity;
    assert LATER_COLUMNS[2] == SourceKind && LATER_COLUMNS[3] == SubtreeDigest;
    assert LATER_COLUMNS[4] == DepScanVersion && LATER_COLUMNS[5] == PoliciesJson;
  }

  lemma NewCellIsNull(t: StoredTable, row: nat, column: Column)
    requires WellFormed(t) && row < |t.rows| && column in LATER_COLUMNS && column !in t.columns
    requires Readable(Upgraded(t), row) && column in Upgraded(t).columns
    ensures Cell(Upgraded(t), row, column).None?
  {
    CellsSurvive(t, row, column);
  }

  /** A row from before either attribution column is never served: it reads without
      attribution, and without a git source or subtree digest its table did not have. */
  lemma OldRowsAreNeverServed(t: StoredTable, row: nat, parse: string -> Option<seq<PolicyDetail>>)
    requires WellFormed(t) && row < |t.rows|
    ensures Readable(Upgraded(t), row)
    ensures var r := ReadRow(Upgraded(t), row, parse);
            && (DepScanVersion !in t.columns || PoliciesJson !in t.columns ==> AttributedHit(r).None?)
            && (SourceKind !in t.columns ==> r.sourceKind.None?)
            && (SubtreeDigest !in t.columns ==> r.subtreeDigest.None?)
  {
    UpgradedIsReadable(t, row);
    OldRowIsUnattributed(t, row);
    OldRowHasNoOrigin(t, row);
  }

  lemma OldRowIsUnattributed(t: StoredTable, row: nat)
    requires WellFormed(t) && row < |t.rows| && Readable(Upgraded(t), row)
    ensures DepScanVersion !in t.columns ==> Cell(Upgraded(t), row, DepScanVersion).None?
    ensures PoliciesJson !in t.columns ==> Cell(Upgraded(t), row, PoliciesJson).None?
  {
    LaterNames();
    if DepScanVersion !in t.columns { NewCellIsNull(t, row, DepScanVersion); }
    if PoliciesJson !in t.columns { NewCellIsNull(t, row, PoliciesJson); }
  }

  lemma OldRowHasNoOrigin(t: StoredTable, row: nat)
    requires WellFormed(t) && row < |t.rows| && Readable(Upgraded(t), row)
    ensures SourceKind !in t.columns ==> Cell(Upgraded(t), row, SourceKind).None?
    ensures SubtreeDigest !in t.columns ==> Cell(Upgraded(t), row, SubtreeDigest).None?
  {
    LaterNames();
    if SourceKind !in t.columns { NewCellIsNull(t, row, SourceKind); }
    if SubtreeDigest !in t.columns { NewCellIsNull(t, row, SubtreeDigest); }
  }
}
