/** The record the memory store keeps, the schema it creates, and the three
    triggers that keep the full-text shadow index in step with the base table.

    The database is modelled as maps: the base table `memory_items` by rowid,
    its primary-key index from `id` to rowid, and the FTS5 shadow table
    `memory_fts` from rowid to the indexed payload. Each trigger is an explicit
    step applied after the base-table change that fires it. */
module Schema {
  import opened Common
  import Uuid

  /** `MemoryItem.PayloadType`, stored by its raw value. */
  datatype PayloadType = Text | Image | Url | Data

  function RawValue(t: PayloadType): string {
    match t
    case Text => "text"
    case Image => "image"
    case Url => "url"
    case Data => "data"
  }

  /** `PayloadType(rawValue: s)`. */
  function FromRawValue(s: string): (r: Option<PayloadType>)
  {
    if s == "text" then Some(Text)
    else if s == "image" then Some(Image)
    else if s == "url" then Some(Url)
    else if s == "data" then Some(Data)
    else None
  }

  /** The raw values identify the four cases: a string is accepted exactly
      when it is the raw value of a case, and then gives that case back. */
  lemma RawValueRoundTrip(s: string, t: PayloadType)
    ensures FromRawValue(s) == Some(t) <==> s == RawValue(t)
  {
  }

  /** `MemoryItem`. Timestamps are whole seconds since the epoch; each `Float`
      of the embedding is its 32-bit pattern. */
  datatype MemoryItem = MemoryItem(
    id: Uuid.Uuid,
    ts: int,
    kind: PayloadType,
    payload: Bytes,
    embedding: seq<Word32>,
    tags: seq<string>,
    flags: Byte)

  /** `MemoryItem(id:ts:type:payload:)` with the remaining parameters left
      at their defaults. */
  function NewItem(id: Uuid.Uuid, ts: int, kind: PayloadType, payload: Bytes): (r: MemoryItem)
    ensures r.id == id && r.ts == ts && r.kind == kind && r.payload == payload
    ensures r.embedding == [] && r.tags == [] && r.flags == 0
  {
    MemoryItem(id, ts, kind, payload, [], [], 0)
  }

  /** The objects `initialMigrationSQL` creates, in statement order. */
  datatype SchemaObject = ItemsTable | FtsTable | InsertTrigger | DeleteTrigger | UpdateTrigger

  const InitialMigration: seq<SchemaObject> :=
    [ItemsTable, FtsTable, InsertTrigger, DeleteTrigger, UpdateTrigger]

  datatype SqlError = NoSuchModule | NoSuchTable | MalformedQuery

  /** Runs `CREATE ... IF NOT EXISTS` statements in order on a catalog of
      existing objects. A statement for an existing object does nothing.
      Creating the FTS5 table fails when the engine lacks the module, and
      execution stops there, keeping what the earlier statements created. */
  function RunMigration(catalog: set<SchemaObject>, stmts: seq<SchemaObject>, fts5: bool)
    : (r: (set<SchemaObject>, Option<SqlError>))
    ensures catalog <= r.0
    ensures r.1.None? ==> forall i :: 0 <= i < |stmts| ==> stmts[i] in r.0
    ensures forall o :: o in r.0 ==> o in catalog || o in stmts
    decreases |stmts|
  {
    if |stmts| == 0 then (catalog, None)
    else if stmts[0] in catalog then RunMigration(catalog, stmts[1..], fts5)
    else if stmts[0] == FtsTable && !fts5 then (catalog, Some(NoSuchModule))
    else RunMigration(catalog + {stmts[0]}, stmts[1..], fts5)
  }

  /** The triggers refer to both tables and the index to the base table, so
      an object is only ever present together with what it depends on. */
  predicate CatalogClosed(c: set<SchemaObject>) {
    && (FtsTable in c ==> ItemsTable in c)
    && (InsertTrigger in c || DeleteTrigger in c || UpdateTrigger in c ==> FtsTable in c)
  }

  /** Applying the migration a second time changes nothing: every statement
      is `IF NOT EXISTS`. */
  lemma {:induction false} MigrationIdempotent(catalog: set<SchemaObject>, stmts: seq<SchemaObject>, fts5: bool)
    ensures RunMigration(RunMigration(catalog, stmts, fts5).0, stmts, fts5) == RunMigration(catalog, stmts, fts5)
    decreases |stmts|
  {
    if |stmts| > 0 {
      var o := stmts[0];
      if o in catalog {
        MigrationIdempotent(catalog, stmts[1..], fts5);
      } else if o == FtsTable && !fts5 {
      } else {
        MigrationIdempotent(catalog + {o}, stmts[1..], fts5);
        var c1 := RunMigration(catalog + {o}, stmts[1..], fts5).0;
        assert o in c1;
      }
    }
  }

  /** Without a failing FTS5 statement the migration reports no error. */
  lemma {:induction false} MigrationSucceeds(catalog: set<SchemaObject>, stmts: seq<SchemaObject>, fts5: bool)
    requires fts5 || FtsTable in catalog
    ensures RunMigration(catalog, stmts, fts5).1.None?
    decreases |stmts|
  {
    if |stmts| > 0 {
      if stmts[0] in catalog {
        MigrationSucceeds(catalog, stmts[1..], fts5);
      } else {
        MigrationSucceeds(catalog + {stmts[0]}, stmts[1..], fts5);
      }
    }
  }

  /** With FTS5 available, or with the index already present, the initial
      migration succeeds and leaves all five objects in place. */
  lemma MigrationComplete(catalog: set<SchemaObject>, fts5: bool)
    requires fts5 || FtsTable in catalog
    ensures var (c, err) := RunMigration(catalog, InitialMigration, fts5);
      err.None? && c == {ItemsTable, FtsTable, InsertTrigger, DeleteTrigger, UpdateTrigger}
  {
    var m := InitialMigration;
    var c := RunMigration(catalog, m, fts5).0;
    MigrationSucceeds(catalog, m, fts5);
    assert m[0] == ItemsTable && m[1] == FtsTable && m[2] == InsertTrigger;
    assert m[3] == DeleteTrigger && m[4] == UpdateTrigger;
    forall o | o in c
      ensures o in {ItemsTable, FtsTable, InsertTrigger, DeleteTrigger, UpdateTrigger}
    {
      match o
      case ItemsTable =>
      case FtsTable =>
      case InsertTrigger =>
      case DeleteTrigger =>
      case UpdateTrigger =>
    }
  }

  /** Without FTS5, on a file that lacks the index, the initial migration
      creates the base table, stops at the index with "no such module", and
      leaves no trigger behind. */
  lemma MigrationWithoutFts5(catalog: set<SchemaObject>)
    requires CatalogClosed(catalog) && FtsTable !in catalog
    ensures RunMigration(catalog, InitialMigration, false) == ({ItemsTable}, Some(NoSuchModule))
  {
    var m := InitialMigration;
    var c0 := catalog + {ItemsTable};
    assert m[0] == ItemsTable && m[1..][0] == FtsTable;
    if ItemsTable in catalog {
      assert c0 == catalog;
    }
    assert RunMigration(catalog, m, false) == RunMigration(c0, m[1..], false);
    forall o | o in catalog
      ensures o == ItemsTable
    {
      match o
      case ItemsTable =>
      case FtsTable =>
      case InsertTrigger =>
      case DeleteTrigger =>
      case UpdateTrigger =>
    }
    assert c0 == {ItemsTable};
  }

  type RowId = nat

  /** One row of `memory_items` as stored: the id as text, the type as its raw
      value, nullable `embedding` and `tags` columns. */
  datatype Row = Row(
    id: string,
    ts: int,
    kind: string,
    payload: Bytes,
    embedding: Option<Bytes>,
    tags: Option<string>,
    flags: int)

  /** The database file: the catalog, the base table by rowid, the
      primary-key index, the shadow index and the rowid the next insert gets. */
  datatype Db = Db(
    catalog: set<SchemaObject>,
    rows: map<RowId, Row>,
    pk: map<string, RowId>,
    fts: map<RowId, Bytes>,
    next: RowId)

  /** A fresh, empty database file. */
  const EmptyDb: Db := Db({}, map[], map[], map[], 1)

  /** The primary-key index maps each id to the one row holding it. */
  predicate PkIndexes(db: Db) {
    && (forall id :: id in db.pk ==> db.pk[id] in db.rows && db.rows[db.pk[id]].id == id)
    && (forall r :: r in db.rows ==> db.rows[r].id in db.pk && db.pk[db.rows[r].id] == r)
  }

  /** SQLite gives a new row the largest rowid plus one, or 1 in an empty
      table; `next` is that value, and no index entry lies at or above it. */
  predicate RowidsBelowNext(db: Db) {
    && 1 <= db.next
    && (forall r :: r in db.rows ==> 1 <= r < db.next)
    && (forall r :: r in db.fts ==> r < db.next)
    && (db.rows == map[] ==> db.next == 1)
    && (db.rows != map[] ==> db.next - 1 in db.rows)
  }

  /** Every live row that is indexed is indexed under its current payload. */
  predicate IndexAgrees(db: Db) {
    forall r :: r in db.rows && r in db.fts ==> db.fts[r] == db.rows[r].payload
  }

  /** `UInt8(row[flags])` traps outside 0..255; every row the store writes
      is inside. */
  predicate FlagsInRange(db: Db) {
    forall r :: r in db.rows ==> 0 <= db.rows[r].flags < 256
  }

  /** The invariant of a database the store has opened and written to. */
  predicate Valid(db: Db) {
    && CatalogClosed(db.catalog)
    && (ItemsTable !in db.catalog ==> db.rows == map[])
    && (FtsTable !in db.catalog ==> db.fts == map[])
    && PkIndexes(db)
    && RowidsBelowNext(db)
    && IndexAgrees(db)
    && FlagsInRange(db)
  }

  /** The shadow index is exactly the rowid-to-payload projection of the
      base table. */
  predicate Synced(db: Db) {
    db.fts == map r | r in db.rows :: db.rows[r].payload
  }

  /** Every live row is indexed. */
  predicate Covered(db: Db) {
    forall r :: r in db.rows ==> r in db.fts
  }

  /** A synced index is a covering one that agrees with the table. */
  lemma SyncedCoversAndAgrees(db: Db)
    requires Synced(db)
    ensures Covered(db) && IndexAgrees(db)
  {
  }

  /** `memory_ai`: after a row is inserted, its payload is indexed under its rowid. */
  function AfterInsert(db: Db, rowid: RowId, payload: Bytes): Db {
    if InsertTrigger in db.catalog then db.(fts := db.fts[rowid := payload]) else db
  }

  /** `memory_ad`: after a row is deleted, the entry under its rowid goes. */
  function AfterDelete(db: Db, rowid: RowId): Db {
    if DeleteTrigger in db.catalog then db.(fts := db.fts - {rowid}) else db
  }

  /** `memory_au`: after a row is updated, the old entry is deleted and the
      new payload inserted. */
  function AfterUpdate(db: Db, rowid: RowId, payload: Bytes): Db {
    if UpdateTrigger in db.catalog then db.(fts := (db.fts - {rowid})[rowid := payload]) else db
  }

  /** `INSERT` of a row whose id is not yet taken: it gets the next rowid and
      the insert trigger fires. */
  function InsertRow(db: Db, row: Row): (r: Db)
    requires row.id !in db.pk
  {
    var rowid := db.next;
    var base := db.(rows := db.rows[rowid := row], pk := db.pk[row.id := rowid], next := rowid + 1);
    AfterInsert(base, rowid, row.payload)
  }

  /** `DELETE` of a row; the delete trigger fires. */
  function DeleteRow(db: Db, rowid: RowId): (r: Db)
    requires rowid in db.rows
  {
    var base := db.(rows := db.rows - {rowid}, pk := db.pk - {db.rows[rowid].id});
    AfterDelete(base, rowid)
  }

  /** `UPDATE` of a row in place, keeping its id; the update trigger fires. */
  function UpdateRow(db: Db, rowid: RowId, row: Row): (r: Db)
    requires rowid in db.rows && row.id == db.rows[rowid].id
  {
    AfterUpdate(db.(rows := db.rows[rowid := row]), rowid, row.payload)
  }

  /** The deletion `INSERT OR REPLACE` performs to clear a primary-key
      conflict. SQLite fires delete triggers for it only when
      `recursive_triggers` is on, which this store never sets, so the
      shadow index is left as it was. */
  function ReplaceDelete(db: Db, id: string): (r: Db)
    requires id in db.pk
  {
    db.(rows := db.rows - {db.pk[id]}, pk := db.pk - {id})
  }

  /** The insert trigger adds exactly `rowid ↦ payload` to the index and
      changes nothing else. */
  lemma InsertTriggerEffect(db: Db, row: Row)
    requires row.id !in db.pk && InsertTrigger in db.catalog
    ensures var r := InsertRow(db, row);
      && r.fts == db.fts[db.next := row.payload]
      && r.rows == db.rows[db.next := row]
      && r.catalog == db.catalog
  {
  }

  /** The delete trigger removes exactly the deleted rowid's entry. */
  lemma DeleteTriggerEffect(db: Db, rowid: RowId)
    requires rowid in db.rows && DeleteTrigger in db.catalog
    ensures var r := DeleteRow(db, rowid);
      && r.fts.Keys == db.fts.Keys - {rowid}
      && (forall k :: k in r.fts ==> r.fts[k] == db.fts[k])
      && r.rows.Keys == db.rows.Keys - {rowid}
  {
  }

  /** The update trigger's delete-then-insert leaves the rowid indexed under
      the new payload, whether or not it was indexed before. */
  lemma UpdateTriggerEffect(db: Db, rowid: RowId, row: Row)
    requires rowid in db.rows && row.id == db.rows[rowid].id && UpdateTrigger in db.catalog
    ensures UpdateRow(db, rowid, row).fts == db.fts[rowid := row.payload]
  {
  }

  /** Each trigger-fired change keeps the shadow index equal to the
      rowid-to-payload projection of the base table. */
  lemma InsertKeepsSynced(db: Db, row: Row)
    requires Synced(db) && RowidsBelowNext(db) && row.id !in db.pk && InsertTrigger in db.catalog
    ensures Synced(InsertRow(db, row))
  {
    var r := InsertRow(db, row);
    assert db.next !in db.rows;
    assert r.fts == (map k | k in r.rows :: r.rows[k].payload);
  }

  lemma DeleteKeepsSynced(db: Db, rowid: RowId)
    requires Synced(db) && rowid in db.rows && DeleteTrigger in db.catalog
    ensures Synced(DeleteRow(db, rowid))
  {
    var r := DeleteRow(db, rowid);
    assert r.fts == (map k | k in r.rows :: r.rows[k].payload);
  }

  lemma UpdateKeepsSynced(db: Db, rowid: RowId, row: Row)
    requires Synced(db) && rowid in db.rows && row.id == db.rows[rowid].id && UpdateTrigger in db.catalog
    ensures Synced(UpdateRow(db, rowid, row))
  {
    var r := UpdateRow(db, rowid, row);
    assert r.fts == (map k | k in r.rows :: r.rows[k].payload);
  }

  /** The replace path's silent deletion leaves the index entry of the
      removed row behind, so an index that was synced no longer is. */
  lemma ReplaceDeleteLeavesStaleEntry(db: Db, id: string)
    requires Synced(db) && PkIndexes(db) && id in db.pk
    ensures var r := ReplaceDelete(db, id);
      && db.pk[id] in r.fts && db.pk[id] !in r.rows
      && !Synced(r)
  {
  }
}
