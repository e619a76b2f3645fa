/** The one-off script that copies the `ClipboardItem` objects of the old
    Core Data store into the memory store.

    Each object whose id, timestamp, type and data attributes are all
    present is turned into a `MemoryItem` with default embedding, tags and
    flags and written; an incomplete object is skipped, and a failed write is
    ignored. The shared store, and with it the database file, is opened on the
    first write. Fetching the objects is a parameter: `None` when the fetch
    fails, in which case nothing happens. */
module LegacyMigration {
  import opened Common
  import Uuid
  import opened Schema
  import MemoryStore

  /** One `ClipboardItem` object: each attribute may be missing or of the
      wrong type, which reads as `None`. */
  datatype LegacyRecord = LegacyRecord(
    id: Option<Uuid.Uuid>,
    timestamp: Option<int>,
    kind: Option<string>,
    data: Option<Bytes>)

  /** The record passes the script's `guard`. */
  function IsComplete(rec: LegacyRecord): bool {
    rec.id.Some? && rec.timestamp.Some? && rec.kind.Some? && rec.data.Some?
  }

  /** The payload type of a legacy type string: text if it mentions "text",
      otherwise image if it mentions "image", otherwise data. */
  function PayloadTypeOf(t: string): (r: PayloadType)
    ensures r == Text <==> Contains(t, "text")
    ensures r == Image <==> !Contains(t, "text") && Contains(t, "image")
    ensures r == Data <==> !Contains(t, "text") && !Contains(t, "image")
    ensures r != Url
  {
    if Contains(t, "text") then Text else if Contains(t, "image") then Image else Data
  }

  /** The item a record becomes, if it is complete. */
  function ToItem(rec: LegacyRecord): (r: Option<MemoryItem>)
    ensures r.Some? <==> IsComplete(rec)
    ensures r.Some? ==> (r.value.id == rec.id.value && r.value.ts == rec.timestamp.value
      && r.value.payload == rec.data.value && r.value.kind == PayloadTypeOf(rec.kind.value))
    ensures r.Some? ==> r.value.embedding == [] && r.value.tags == [] && r.value.flags == 0
  {
    if IsComplete(rec) then
      Some(NewItem(rec.id.value, rec.timestamp.value, PayloadTypeOf(rec.kind.value), rec.data.value))
    else None
  }

  /** One pass of the loop body: `try? write(item)` for a complete record. */
  function Step(db: Db, rec: LegacyRecord): Db {
    match ToItem(rec)
    case None => db
    case Some(item) =>
      match MemoryStore.Write(db, item)
      case Ok(d) => d
      case Err(_) => db
  }

  /** The loop over the fetched records, on an opened store. */
  function MigrateRecords(db: Db, recs: seq<LegacyRecord>): Db
    decreases |recs|
  {
    if |recs| == 0 then db else MigrateRecords(Step(db, recs[0]), recs[1..])
  }

  /** The whole script on a database file: the store is opened by the first
      write, so a run with no complete record leaves the file as it was. */
  function RunScript(file: Db, fts5: bool, fetched: Option<seq<LegacyRecord>>): Db {
    match fetched
    case None => file
    case Some(recs) =>
      if Filter(recs, IsComplete) == [] then file
      else MigrateRecords(MemoryStore.Open(file, fts5), recs)
  }

  /** What one record does to the table's contents by id. */
  function Apply(m: map<string, Row>, rec: LegacyRecord): map<string, Row> {
    match ToItem(rec)
    case None => m
    case Some(item) => m[Uuid.UuidString(item.id) := MemoryStore.ToRow(item)]
  }

  /** The contents by id after the records, applied in order. */
  function Overlay(m: map<string, Row>, recs: seq<LegacyRecord>): map<string, Row>
    decreases |recs|
  {
    if |recs| == 0 then m else Overlay(Apply(m, recs[0]), recs[1..])
  }

  /** Skipping an incomplete record is the same as not having it: the loop
      does exactly what it would do on the complete records alone. */
  lemma {:induction false} MigrateSkipsIncomplete(db: Db, recs: seq<LegacyRecord>)
    ensures MigrateRecords(db, recs) == MigrateRecords(db, Filter(recs, IsComplete))
    decreases |recs|
  {
    if |recs| > 0 {
      MigrateSkipsIncomplete(Step(db, recs[0]), recs[1..]);
      if !IsComplete(recs[0]) {
        MigrateSkipsIncomplete(db, recs[1..]);
      }
    }
  }

  /** On an opened, valid store every write succeeds: the loop keeps the
      invariant and leaves, for each id, the row of the last complete record
      that carries it, on top of what the table held. */
  lemma {:induction false} MigrateContents(db: Db, recs: seq<LegacyRecord>)
    requires Valid(db) && ItemsTable in db.catalog
    ensures Valid(MigrateRecords(db, recs)) && ItemsTable in MigrateRecords(db, recs).catalog
    ensures MemoryStore.Contents(MigrateRecords(db, recs)) == Overlay(MemoryStore.Contents(db), recs)
    decreases |recs|
  {
    if |recs| > 0 {
      var d := Step(db, recs[0]);
      match ToItem(recs[0]) {
        case None =>
        case Some(item) =>
          MemoryStore.WriteUpserts(db, item);
          MemoryStore.WriteKeepsValid(db, item);
      }
      MigrateContents(d, recs[1..]);
    }
  }

  /** A record's effect on contents is a single-entry overlay. */
  lemma ApplyIsUnion(m: map<string, Row>, rec: LegacyRecord)
    ensures Apply(m, rec) == m + Apply(map[], rec)
  {
  }

  /** The contents after the records are the earlier contents overlaid with
      what the records alone produce. */
  lemma {:induction false} OverlayIsUnion(m: map<string, Row>, recs: seq<LegacyRecord>)
    ensures Overlay(m, recs) == m + Overlay(map[], recs)
    decreases |recs|
  {
    if |recs| > 0 {
      var a := Apply(map[], recs[0]);
      ApplyIsUnion(m, recs[0]);
      OverlayIsUnion(m + a, recs[1..]);
      OverlayIsUnion(a, recs[1..]);
      UnionAssociative(m, a, Overlay(map[], recs[1..]));
    }
  }

  lemma UnionAssociative(a: map<string, Row>, b: map<string, Row>, c: map<string, Row>)
    ensures (a + b) + c == a + (b + c)
  {
  }

  /** Applying the same records a second time changes nothing more. */
  lemma OverlayIdempotent(m: map<string, Row>, recs: seq<LegacyRecord>)
    ensures Overlay(Overlay(m, recs), recs) == Overlay(m, recs)
  {
    var o := Overlay(map[], recs);
    OverlayIsUnion(m, recs);
    OverlayIsUnion(m + o, recs);
    assert (m + o) + o == m + o;
  }

  /** Records that are all incomplete leave the contents alone. */
  lemma {:induction false} OverlayIncomplete(m: map<string, Row>, recs: seq<LegacyRecord>)
    requires Filter(recs, IsComplete) == []
    ensures Overlay(m, recs) == m
    decreases |recs|
  {
    if |recs| > 0 {
      OverlayIncomplete(m, recs[1..]);
    }
  }

  /** The script keeps a valid file valid, and the table then holds what it
      held overlaid with the rows of the complete records. */
  lemma RunScriptContents(file: Db, fts5: bool, fetched: Option<seq<LegacyRecord>>)
    requires Valid(file)
    ensures Valid(RunScript(file, fts5, fetched))
    ensures MemoryStore.Contents(RunScript(file, fts5, fetched))
      == if fetched.None? then MemoryStore.Contents(file) else Overlay(MemoryStore.Contents(file), fetched.value)
  {
    if fetched.Some? {
      var recs := fetched.value;
      if Filter(recs, IsComplete) == [] {
        OverlayIncomplete(MemoryStore.Contents(file), recs);
      } else {
        var store := MemoryStore.Open(file, fts5);
        MemoryStore.OpenKeepsValid(file, fts5);
        assert MemoryStore.Contents(store) == MemoryStore.Contents(file);
        MigrateContents(store, recs);
      }
    }
  }

  /** Running the script a second time on its own output changes no row's
      contents: every id already holds the row the second run writes. */
  lemma RunScriptIdempotent(file: Db, fts5: bool, fetched: Option<seq<LegacyRecord>>)
    requires Valid(file)
    ensures var once := RunScript(file, fts5, fetched);
      MemoryStore.Contents(RunScript(once, fts5, fetched)) == MemoryStore.Contents(once)
  {
    var once := RunScript(file, fts5, fetched);
    RunScriptContents(file, fts5, fetched);
    RunScriptContents(once, fts5, fetched);
    if fetched.Some? {
      OverlayIdempotent(MemoryStore.Contents(file), fetched.value);
    }
  }
}
