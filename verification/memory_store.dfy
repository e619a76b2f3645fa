/** `MemoryStore`: opening the database file, writing an item with
    `INSERT OR REPLACE`, full-text search through the FTS5 index, and the
    newest-first text digest handed to a prompt.

    What SQLite decides on its own is a parameter: whether a query text is
    accepted by FTS5 and which indexed payloads it matches (`Fts5`), the order
    in which the index yields its hits, and the order in which
    `ORDER BY ts DESC` visits rows with equal timestamps. A fresh `UUID()` is
    a parameter too. */
module MemoryStore {
  import opened Common
  import Utf8
  import Uuid
  import Embedding
  import TagsJson
  import opened Schema

  // ---------------------------------------------------------------------------
  // Opening the store

  /** `MemoryStore.init`: the initial migration runs on the file and its error,
      if any, is swallowed. The data already in the file is untouched. */
  function Open(db: Db, fts5: bool): (r: Db)
    ensures r.rows == db.rows && r.pk == db.pk && r.fts == db.fts && r.next == db.next
    ensures db.catalog <= r.catalog
  {
    db.(catalog := RunMigration(db.catalog, InitialMigration, fts5).0)
  }

  /** Opening keeps the database invariant and always leaves the base table
      in place; with FTS5 available all five schema objects are present. */
  lemma OpenKeepsValid(db: Db, fts5: bool)
    requires Valid(db)
    ensures Valid(Open(db, fts5))
    ensures ItemsTable in Open(db, fts5).catalog
    ensures fts5 ==> Open(db, fts5).catalog == {ItemsTable, FtsTable, InsertTrigger, DeleteTrigger, UpdateTrigger}
  {
    MigrationKeepsClosed(db.catalog, fts5);
    GrownCatalogKeepsValid(db, Open(db, fts5).catalog);
  }

  /** Only the catalog part of the invariant depends on which objects exist,
      and a larger closed catalog keeps it. */
  lemma GrownCatalogKeepsValid(db: Db, c: set<SchemaObject>)
    requires Valid(db) && CatalogClosed(c) && db.catalog <= c
    ensures Valid(db.(catalog := c))
  {
    var d := db.(catalog := c);
    assert PkIndexes(d) && RowidsBelowNext(d) && IndexAgrees(d) && FlagsInRange(d);
  }

  /** The migration leaves a closed catalog that holds the base table. */
  lemma MigrationKeepsClosed(catalog: set<SchemaObject>, fts5: bool)
    requires CatalogClosed(catalog)
    ensures var c := RunMigration(catalog, InitialMigration, fts5).0;
      CatalogClosed(c) && ItemsTable in c
      && (fts5 ==> c == {ItemsTable, FtsTable, InsertTrigger, DeleteTrigger, UpdateTrigger})
  {
    if fts5 || FtsTable in catalog {
      MigrationComplete(catalog, fts5);
    } else {
      MigrationWithoutFts5(catalog);
    }
  }

  /** Opening the same file twice is opening it once. */
  lemma OpenIdempotent(db: Db, fts5: bool)
    ensures Open(Open(db, fts5), fts5) == Open(db, fts5)
  {
    MigrationIdempotent(db.catalog, InitialMigration, fts5);
  }

  /** A new file opened with FTS5 is valid and its index is exactly the
      projection of the (empty) table. */
  lemma OpenNewFile(fts5: bool)
    requires fts5
    ensures Valid(Open(EmptyDb, fts5)) && Synced(Open(EmptyDb, fts5))
  {
    OpenKeepsValid(EmptyDb, fts5);
  }

  /** An index created on a file whose table already holds rows does not
      index them: the migration has no rebuild step. */
  lemma OpenLateIndexMissesRows(db: Db)
    requires Valid(db) && FtsTable !in db.catalog && db.rows != map[]
    ensures !Covered(Open(db, true))
  {
    var r :| r in db.rows;
    assert r !in Open(db, true).fts;
  }

  // ---------------------------------------------------------------------------
  // Columns of a row

  /** The tags column as `write` fills it: the JSON text, as bytes, read back
      as UTF-8 text. */
  function TagsColumn(tags: seq<string>): (r: Option<string>)
    ensures r == Some(TagsJson.Encode(tags))
  {
    Utf8.DecodeEncode(TagsJson.Encode(tags));
    Utf8.Decode(Utf8.Encode(TagsJson.Encode(tags)))
  }

  /** The row `write` stores for an item. */
  function ToRow(item: MemoryItem): (r: Row)
    ensures Uuid.Parse(r.id) == Some(item.id)
    ensures FromRawValue(r.kind) == Some(item.kind)
    ensures r.embedding.Some? && |r.embedding.value| == 4 * |item.embedding|
    ensures r.tags.Some? && TagsJson.Decode(r.tags.value) == Some(item.tags)
    ensures r.ts == item.ts && r.payload == item.payload && 0 <= r.flags < 256
  {
    Uuid.ParseUuidString(item.id);
    RawValueRoundTrip(RawValue(item.kind), item.kind);
    Embedding.EncodeLength(item.embedding);
    TagsJson.DecodeEncode(item.tags);
    Row(Uuid.UuidString(item.id), item.ts, RawValue(item.kind), item.payload,
        Some(Embedding.Encode(item.embedding)), TagsColumn(item.tags), item.flags as int)
  }

  /** The tags of a row: a missing column or text that is not a JSON array of
      strings gives no tags. */
  function TagsOf(col: Option<string>): (r: seq<string>)
    ensures col.None? ==> r == []
    ensures col.Some? && TagsJson.Decode(col.value).Some? ==> r == TagsJson.Decode(col.value).value
    ensures col.Some? && TagsJson.Decode(col.value).None? ==> r == []
  {
    match col
    case None => []
    case Some(text) =>
      match TagsJson.Decode(text)
      case Some(tags) => tags
      case None => []
  }

  /** `rowToItem`. Each column is read on its own: an id that is not a UUID
      is replaced by `newId`, an unknown type reads as text, a missing
      embedding as the empty vector, unreadable tags as none. Reading the
      flags traps outside 0..255, which the precondition excludes. */
  function RowToItem(row: Row, newId: Uuid.Uuid): (item: MemoryItem)
    requires 0 <= row.flags < 256
    ensures Uuid.Parse(row.id).Some? ==> item.id == Uuid.Parse(row.id).value
    ensures Uuid.Parse(row.id).None? ==> item.id == newId
    ensures FromRawValue(row.kind).Some? ==> item.kind == FromRawValue(row.kind).value
    ensures FromRawValue(row.kind).None? ==> item.kind == Text
    ensures row.embedding.None? ==> item.embedding == []
    ensures row.embedding.Some? ==> |item.embedding| == |row.embedding.value| / 4
    ensures row.tags.None? ==> item.tags == []
    ensures item.tags == TagsOf(row.tags)
    ensures item.embedding == Embedding.Decode(if row.embedding.Some? then row.embedding.value else [])
    ensures item.ts == row.ts && item.payload == row.payload && item.flags == row.flags
  {
    var id := match Uuid.Parse(row.id) case Some(u) => u case None => newId;
    var kind := match FromRawValue(row.kind) case Some(k) => k case None => Text;
    var bytes := match row.embedding case Some(b) => b case None => [];
    Embedding.DecodeLength(bytes);
    MemoryItem(id, row.ts, kind, row.payload, Embedding.Decode(bytes), TagsOf(row.tags), row.flags)
  }

  /** Reading a written row gives back the item that was written, field for
      field, whatever new id would have been drawn. */
  lemma RowRoundTrip(item: MemoryItem, newId: Uuid.Uuid)
    ensures RowToItem(ToRow(item), newId) == item
  {
    Embedding.DecodeEncode(item.embedding);
  }

  // ---------------------------------------------------------------------------
  // Writing

  /** What the table holds, by id: the row each id's primary-key entry points to. */
  function Contents(db: Db): (m: map<string, Row>)
    ensures forall id :: id in m <==> id in db.pk && db.pk[id] in db.rows
  {
    map id | id in db.pk && db.pk[id] in db.rows :: db.rows[db.pk[id]]
  }

  /** `INSERT OR REPLACE` of a row: a row holding the same id is removed
      first, without firing the delete trigger; the new row gets the next
      rowid and fires the insert trigger. */
  function Upsert(db: Db, row: Row): (r: Db)
    ensures r.catalog == db.catalog && r.next == db.next + 1
    ensures r.rows == (if row.id in db.pk then db.rows - {db.pk[row.id]} else db.rows)[db.next := row]
    ensures r.pk == db.pk[row.id := db.next]
    ensures r.fts == if InsertTrigger in db.catalog then db.fts[db.next := row.payload] else db.fts
  {
    var cleared := if row.id in db.pk then ReplaceDelete(db, row.id) else db;
    InsertRow(cleared, row)
  }

  /** `write(item)`: the upsert of the item's row. The statement fails when
      the table does not exist. */
  function Write(db: Db, item: MemoryItem): (r: Result<Db, SqlError>)
    ensures r.Err? <==> ItemsTable !in db.catalog
    ensures r.Err? ==> r.error == NoSuchTable
    ensures r.Ok? ==> r.value.catalog == db.catalog && r.value.next == db.next + 1
    ensures r.Ok? ==> db.next in r.value.rows && r.value.rows[db.next] == ToRow(item)
  {
    if ItemsTable !in db.catalog then Err(NoSuchTable) else Ok(Upsert(db, ToRow(item)))
  }

  lemma UpsertKeepsPk(db: Db, row: Row)
    requires PkIndexes(db) && RowidsBelowNext(db)
    ensures PkIndexes(Upsert(db, row))
  {
    var d := Upsert(db, row);
    forall id | id in d.pk
      ensures d.pk[id] in d.rows && d.rows[d.pk[id]].id == id
    {
      if id != row.id {
        assert db.pk[id] != db.next;
        assert row.id in db.pk ==> db.pk[id] != db.pk[row.id];
      }
    }
    forall k | k in d.rows
      ensures d.rows[k].id in d.pk && d.pk[d.rows[k].id] == k
    {
      if k != db.next {
        assert k in db.rows;
      }
    }
  }

  lemma UpsertKeepsRowids(db: Db, row: Row)
    requires RowidsBelowNext(db)
    ensures RowidsBelowNext(Upsert(db, row))
  {
    var d := Upsert(db, row);
    assert db.next in d.rows;
  }

  lemma UpsertKeepsAgreement(db: Db, row: Row)
    requires IndexAgrees(db) && RowidsBelowNext(db)
    ensures IndexAgrees(Upsert(db, row))
  {
    var d := Upsert(db, row);
    forall k | k in d.rows && k in d.fts
      ensures d.fts[k] == d.rows[k].payload
    {
      if k != db.next {
        assert k in db.rows && k in db.fts;
      }
    }
  }

  /** The upsert law: after a write the table holds exactly one row for the
      item's id, the item's own row, and every other id keeps its row. */
  lemma UpsertContents(db: Db, row: Row)
    requires PkIndexes(db) && RowidsBelowNext(db)
    ensures Contents(Upsert(db, row)) == Contents(db)[row.id := row]
  {
    var d := Upsert(db, row);
    var m, w := Contents(d), Contents(db)[row.id := row];
    forall id | id in w
      ensures id in m && m[id] == w[id]
    {
      if id != row.id {
        var k := db.pk[id];
        assert k != db.next;
        assert row.id in db.pk ==> k != db.pk[row.id];
        assert d.pk[id] == k && k in d.rows && d.rows[k] == db.rows[k];
      }
    }
    forall id | id in m
      ensures id in w
    {
      if id != row.id {
        assert d.pk[id] == db.pk[id];
      }
    }
    assert m == w;
  }

  lemma WriteUpserts(db: Db, item: MemoryItem)
    requires Valid(db) && ItemsTable in db.catalog
    ensures Write(db, item).Ok?
    ensures Contents(Write(db, item).value) == Contents(db)[Uuid.UuidString(item.id) := ToRow(item)]
  {
    UpsertContents(db, ToRow(item));
  }

  /** A write keeps the database invariant: the primary key still indexes
      every row, rowids stay below the next one, the new row's index entry,
      if any, carries its payload, and the flags stay in range. */
  lemma WriteKeepsValid(db: Db, item: MemoryItem)
    requires Valid(db) && Write(db, item).Ok?
    ensures Valid(Write(db, item).value)
  {
    var row := ToRow(item);
    UpsertKeepsPk(db, row);
    UpsertKeepsRowids(db, row);
    UpsertKeepsAgreement(db, row);
  }

  /** Once every live row is indexed and the insert trigger exists, writes
      keep every live row indexed. */
  lemma WriteKeepsCovered(db: Db, item: MemoryItem)
    requires Covered(db) && InsertTrigger in db.catalog && Write(db, item).Ok?
    ensures Covered(Write(db, item).value)
  {
  }

  /** Replacing an item leaves the index entry of its old row behind: after a
      second write of the same id the index holds an entry whose row is gone. */
  lemma RewriteLeavesStaleEntry(db: Db, item: MemoryItem)
    requires Valid(db) && Synced(db) && ItemsTable in db.catalog && InsertTrigger in db.catalog
    requires Uuid.UuidString(item.id) in db.pk
    ensures var d := Write(db, item).value;
      exists k :: k in d.fts && k !in d.rows
  {
    var k := db.pk[Uuid.UuidString(item.id)];
    assert k in Write(db, item).value.fts;
  }

  // ---------------------------------------------------------------------------
  // Searching

  /** What the FTS5 engine contributes to a query: whether the text parses as
      an FTS5 query, whether it matches an indexed payload, and the order in
      which the index yields its rowids. */
  datatype Fts5 = Fts5(wellFormed: string -> bool, matches: (string, Bytes) -> bool, order: seq<RowId>)

  /** `order` lists every key exactly once and nothing else. */
  ghost predicate Enumerates(keys: set<RowId>, order: seq<RowId>) {
    && Distinct(order)
    && (forall i :: 0 <= i < |order| ==> order[i] in keys)
    && (forall k :: k in keys ==> k in order)
  }

  /** A rowid the query returns: its index entry matches the text and the
      join finds a live row under it. */
  function IsHit(db: Db, text: string, eng: Fts5): RowId -> bool {
    k => k in db.fts && eng.matches(text, db.fts[k]) && k in db.rows
  }

  /** `LIMIT n`: at most n, and no limit at all when n is negative. */
  function Limit<T>(s: seq<T>, limit: int): (r: seq<T>)
    ensures limit < 0 ==> r == s
    ensures 0 <= limit ==> |r| == if limit < |s| then limit else |s|
    ensures forall i :: 0 <= i < |r| ==> r[i] == s[i]
  {
    if limit < 0 then s else Prefix(s, limit)
  }

  /** The rowids the search statement returns, in the order the index yields them. */
  function SearchRowids(db: Db, text: string, limit: int, eng: Fts5): (ids: seq<RowId>)
    ensures 0 <= limit ==> |ids| <= limit
    ensures forall i :: 0 <= i < |ids| ==>
      ids[i] in db.rows && ids[i] in db.fts && eng.matches(text, db.fts[ids[i]])
  {
    Limit(Filter(eng.order, IsHit(db, text, eng)), limit)
  }

  /** The items of the given rows, read with `rowToItem`. */
  function Items(db: Db, ids: seq<RowId>, newId: RowId -> Uuid.Uuid): (items: seq<MemoryItem>)
    requires FlagsInRange(db) && forall i :: 0 <= i < |ids| ==> ids[i] in db.rows
    ensures |items| == |ids|
    ensures forall i :: 0 <= i < |ids| ==> items[i] == RowToItem(db.rows[ids[i]], newId(ids[i]))
  {
    seq(|ids|, i requires 0 <= i < |ids| => RowToItem(db.rows[ids[i]], newId(ids[i])))
  }

  /** `search(text:limit:)`. An empty text returns nothing without touching
      the database; otherwise the statement fails when a table is missing or
      FTS5 rejects the query, and returns the matching live rows up to the
      limit. */
  function Search(db: Db, text: string, limit: int, eng: Fts5, newId: RowId -> Uuid.Uuid)
    : (r: Result<seq<MemoryItem>, SqlError>)
    requires FlagsInRange(db)
    ensures text == "" ==> r == Ok([])
    ensures r.Err? <==> text != "" && (FtsTable !in db.catalog || ItemsTable !in db.catalog || !eng.wellFormed(text))
    ensures r.Ok? && 0 <= limit ==> |r.value| <= limit
  {
    if text == "" then Ok([])
    else if FtsTable !in db.catalog || ItemsTable !in db.catalog then Err(NoSuchTable)
    else if !eng.wellFormed(text) then Err(MalformedQuery)
    else Ok(Items(db, SearchRowids(db, text, limit, eng), newId))
  }

  /** Every result is the reading of a live row whose current payload
      matches the text. */
  lemma SearchSound(db: Db, text: string, limit: int, eng: Fts5, newId: RowId -> Uuid.Uuid, i: int)
    requires FlagsInRange(db) && IndexAgrees(db)
    requires Search(db, text, limit, eng, newId).Ok? && 0 <= i < |Search(db, text, limit, eng, newId).value|
    ensures exists k :: (k in db.rows && eng.matches(text, db.rows[k].payload)
      && Search(db, text, limit, eng, newId).value[i] == RowToItem(db.rows[k], newId(k)))
  {
    var k := SearchRowids(db, text, limit, eng)[i];
    assert k in db.rows && eng.matches(text, db.rows[k].payload);
  }

  /** No result is returned twice. */
  lemma SearchDistinct(db: Db, text: string, limit: int, eng: Fts5)
    requires Distinct(eng.order)
    ensures Distinct(SearchRowids(db, text, limit, eng))
  {
    FilterDistinct(eng.order, IsHit(db, text, eng));
  }

  /** When the limit does not cut the answer short, every live indexed row
      whose entry matches is in it. */
  lemma SearchComplete(db: Db, text: string, limit: int, eng: Fts5, k: RowId)
    requires Enumerates(db.fts.Keys, eng.order)
    requires limit < 0 || |SearchRowids(db, text, limit, eng)| < limit
    requires k in db.rows && k in db.fts && eng.matches(text, db.fts[k])
    ensures k in SearchRowids(db, text, limit, eng)
  {
    var i :| 0 <= i < |eng.order| && eng.order[i] == k;
    assert IsHit(db, text, eng)(eng.order[i]);
  }

  /** An enumeration has one element per key. */
  lemma EnumeratesCount(keys: set<RowId>, order: seq<RowId>)
    requires Enumerates(keys, order)
    ensures |order| == |keys|
  {
    DistinctCard(order);
    var elems: set<RowId> := set x | x in order;
    assert |elems| == |order|;
    assert elems == keys;
  }

  /** A limit no smaller than the number of live rows cuts nothing off. */
  lemma SearchUncut(db: Db, text: string, limit: int, eng: Fts5)
    requires Distinct(eng.order)
    requires limit < 0 || |db.rows| <= limit
    ensures SearchRowids(db, text, limit, eng) == Filter(eng.order, IsHit(db, text, eng))
  {
    var hits := Filter(eng.order, IsHit(db, text, eng));
    FilterDistinct(eng.order, IsHit(db, text, eng));
    DistinctWithin(hits, db.rows.Keys);
  }

  /** A search for text the item's payload matches, right after the item is
      written to an indexed store, returns the item, unless more live rows
      match than the limit lets through. */
  lemma SearchFindsWritten(db: Db, item: MemoryItem, text: string, limit: int, eng: Fts5, newId: RowId -> Uuid.Uuid)
    requires Valid(db)
    requires db.catalog == {ItemsTable, FtsTable, InsertTrigger, DeleteTrigger, UpdateTrigger}
    requires text != "" && eng.wellFormed(text) && eng.matches(text, item.payload)
    requires Enumerates(Write(db, item).value.fts.Keys, eng.order)
    requires limit < 0 || |Filter(eng.order, IsHit(Write(db, item).value, text, eng))| <= limit
    ensures var d := Write(db, item).value;
      Search(d, text, limit, eng, newId).Ok? && item in Search(d, text, limit, eng, newId).value
  {
    var row := ToRow(item);
    var d := Upsert(db, row);
    assert Write(db, item).value == d;
    var k := db.next;
    assert k in d.fts && d.fts[k] == item.payload;
    var hits := Filter(eng.order, IsHit(d, text, eng));
    var ids := SearchRowids(d, text, limit, eng);
    assert ids == hits;
    var i :| 0 <= i < |eng.order| && eng.order[i] == k;
    assert IsHit(d, text, eng)(eng.order[i]);
    var j :| 0 <= j < |ids| && ids[j] == k;
    RowRoundTrip(item, newId(k));
    assert Search(d, text, limit, eng, newId).value[j] == item;
  }

  /** The limit `search(text:)` uses when the caller gives none. */
  const DefaultLimit: int := 50

  /** The searchHit test as written, with the default limit: the written
      item is among at most fifty results, provided no more than fifty live
      rows match. */
  lemma SearchFindsWrittenDefault(db: Db, item: MemoryItem, text: string, eng: Fts5, newId: RowId -> Uuid.Uuid)
    requires Valid(db)
    requires db.catalog == {ItemsTable, FtsTable, InsertTrigger, DeleteTrigger, UpdateTrigger}
    requires text != "" && eng.wellFormed(text) && eng.matches(text, item.payload)
    requires Enumerates(Write(db, item).value.fts.Keys, eng.order)
    requires |Filter(eng.order, IsHit(Write(db, item).value, text, eng))| <= DefaultLimit
    ensures var r := Search(Write(db, item).value, text, DefaultLimit, eng, newId);
      r.Ok? && item in r.value && |r.value| <= 50
  {
    SearchFindsWritten(db, item, text, DefaultLimit, eng, newId);
  }

  /** A search for text that no live row's payload matches returns nothing,
      whatever stale entries the index still holds. */
  lemma SearchMisses(db: Db, text: string, limit: int, eng: Fts5, newId: RowId -> Uuid.Uuid)
    requires FlagsInRange(db) && IndexAgrees(db)
    requires forall k :: k in db.rows ==> !eng.matches(text, db.rows[k].payload)
    requires Search(db, text, limit, eng, newId).Ok?
    ensures Search(db, text, limit, eng, newId).value == []
  {
    var hit := IsHit(db, text, eng);
    forall i | 0 <= i < |eng.order|
      ensures !hit(eng.order[i])
    {
      var k := eng.order[i];
      if k in db.rows && k in db.fts {
        assert db.fts[k] == db.rows[k].payload;
      }
    }
    FilterNone(eng.order, hit);
  }

  // ---------------------------------------------------------------------------
  // Prompt digest

  /** `ORDER BY ts DESC` as SQLite runs it: every row exactly once, newest
      first; rows with equal timestamps come in an order of the engine's choosing. */
  ghost predicate NewestFirst(db: Db, scan: seq<RowId>) {
    && Enumerates(db.rows.Keys, scan)
    && forall i, j :: 0 <= i < j < |scan| ==> db.rows[scan[i]].ts >= db.rows[scan[j]].ts
  }

  /** The payloads of the items as text, with `""` for one that is not UTF-8. */
  function Texts(items: seq<MemoryItem>): (r: seq<string>)
    ensures |r| == |items|
    ensures forall i :: 0 <= i < |items| ==> r[i] == Utf8.TextOrEmpty(items[i].payload)
  {
    seq(|items|, i requires 0 <= i < |items| => Utf8.TextOrEmpty(items[i].payload))
  }

  /** `retrieveForPrompt(budget:)`: the payloads of the `budget` newest rows,
      one per line. Without the table the query fails and the digest is empty. */
  function RetrieveForPrompt(db: Db, budget: int, scan: seq<RowId>, newId: RowId -> Uuid.Uuid): (r: string)
    requires FlagsInRange(db) && forall i :: 0 <= i < |scan| ==> scan[i] in db.rows
    ensures ItemsTable !in db.catalog ==> r == ""
    ensures budget == 0 ==> r == ""
  {
    if ItemsTable !in db.catalog then ""
    else Join(Texts(Items(db, Limit(scan, budget), newId)), "\n")
  }

  /** The digest is the texts of rows chosen newest-first: as many as the
      budget allows (all of them for a negative budget), each no older than
      any row left out, joined by line breaks. */
  lemma RetrieveTakesNewest(db: Db, budget: int, scan: seq<RowId>, newId: RowId -> Uuid.Uuid)
    returns (chosen: seq<RowId>, parts: seq<string>)
    requires FlagsInRange(db) && ItemsTable in db.catalog && NewestFirst(db, scan)
    ensures |chosen| == if 0 <= budget < |db.rows| then budget else |db.rows|
    ensures Distinct(chosen) && forall i :: 0 <= i < |chosen| ==> chosen[i] in db.rows
    ensures forall i, j :: 0 <= i < j < |chosen| ==> db.rows[chosen[i]].ts >= db.rows[chosen[j]].ts
    ensures forall k, i :: k in db.rows && k !in chosen && 0 <= i < |chosen| ==>
      db.rows[k].ts <= db.rows[chosen[i]].ts
    ensures |parts| == |chosen|
    ensures forall i :: 0 <= i < |chosen| ==> parts[i] == Utf8.TextOrEmpty(db.rows[chosen[i]].payload)
    ensures RetrieveForPrompt(db, budget, scan, newId) == Join(parts, "\n")
  {
    chosen := Limit(scan, budget);
    parts := Texts(Items(db, chosen, newId));
    EnumeratesCount(db.rows.Keys, scan);
    LeftOutIsOlder(db, scan, chosen);
  }

  /** A row missing from a prefix of the newest-first order is no newer than
      any row in the prefix. */
  lemma LeftOutIsOlder(db: Db, scan: seq<RowId>, chosen: seq<RowId>)
    requires NewestFirst(db, scan)
    requires |chosen| <= |scan| && forall i :: 0 <= i < |chosen| ==> chosen[i] == scan[i]
    ensures forall k, i :: k in db.rows && k !in chosen && 0 <= i < |chosen| ==>
      db.rows[k].ts <= db.rows[chosen[i]].ts
  {
    forall k, i | k in db.rows && k !in chosen && 0 <= i < |chosen|
      ensures db.rows[k].ts <= db.rows[chosen[i]].ts
    {
      var j :| 0 <= j < |scan| && scan[j] == k;
      assert i < j;
    }
  }
}
