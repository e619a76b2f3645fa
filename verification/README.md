# Magpie / Nest core, modelled in Dafny

This project models two parts of the Magpie clipboard manager and proves
properties of the model.

**NestCore** is the persistent memory store.
- A `MemoryItem` has an id, a timestamp, a payload type, a payload, an embedding, tags and flags.
- Items live in the SQLite table `memory_items`.
- An FTS5 index `memory_fts` shadows the payloads, kept in step by three triggers.
- `MemoryStore` opens the database and runs the schema migration. It writes with `INSERT OR REPLACE`, searches through the full-text index and retrieves the newest payloads for a prompt.
- A one-off script copies the old Core Data clipboard history into the store.

**clipScope** is the menu-bar clipboard history.
- `ClipItem` carries a type string, Base 64 data and the source application.
- `ClipStorage` saves, deletes, expires and loads the history.
- The main window (`NestView`) narrows the history by search text and category.
- The quick menu (`QuickMenuView`) shows the first ten filtered entries, keeps a tap selection and a combine selection, and joins the selected texts onto the pasteboard.

## How the model is built

- The database is an immutable value `Db`. It holds:
  - the schema catalog;
  - the rows by rowid;
  - the primary-key index from id to rowid;
  - the full-text index from rowid to indexed payload;
  - the next rowid.
- Each SQL statement is a function from the database before to the database after. Each trigger is a function applied after its statement.
- `INSERT OR REPLACE` first removes the row holding the id. That removal fires no delete trigger, because the store never sets `recursive_triggers`. The old index entry therefore stays behind. The search join drops such a stale entry, because its rowid no longer names a live row. The invariant proved for every write is therefore weaker than exact synchronisation:
  - every live row that is indexed is indexed under its current payload;
  - every rowid in the tables is below the next one;
  - the primary-key index is exact.

  Exact synchronisation is proved for the three trigger-driven statements.
- The FTS5 engine is a parameter `Fts5`. It says which query strings are well formed, which payloads a query matches, and the order in which the engine visits its index.
- The order of `ORDER BY ts DESC` among equal timestamps is a parameter `scan`.
- A fresh `UUID()` is a parameter `newId`.
- Timestamps are whole seconds (`int`). A `Float` of an embedding is its 32-bit pattern.
- `localizedCaseInsensitiveContains` is ASCII case folding. An empty needle is never contained.
- The clipboard history is a `seq<ClipItem>`. Each storage operation is a function from the list before to the list after; the clock and the identifier are parameters.
- The quick menu's state is a `MenuState` value:
  - the combine selection;
  - whether combine mode is on;
  - the tapped entry.

  Each button closure is a function on that state.
- The code is followed where it differs from the documented intent:
  - `retrieveForPrompt` takes at most `budget` rows. It does not count tokens, and it has no fallback scan.
  - A rewrite of an existing id leaves a stale full-text entry. The index is not kept exactly in step.

## Model

| member | source | states |
|---|---|---|
| Schema.RawValueRoundTrip | Packages/Sources/NestCore/Schema.swift:4 | a string is accepted as a payload type exactly when it is that type's raw value |
| Schema.NewItem | Packages/Sources/NestCore/Schema.swift:13-21 | the initialiser keeps id, timestamp, type and payload and defaults embedding and tags to empty and flags to 0 |
| Schema.RunMigration | Packages/Sources/NestCore/Schema.swift:24-46 | the migration only adds schema objects, each one it adds is a statement of the script, and without an error every statement's object exists afterwards |
| Schema.MigrationIdempotent | Packages/Sources/NestCore/Schema.swift:25-45 | running the `IF NOT EXISTS` script a second time changes neither the catalog nor the outcome |
| Schema.MigrationSucceeds | Packages/Sources/NestCore/Schema.swift:34-35 | when FTS5 is available, or the index already exists, the migration reports no error |
| Schema.MigrationComplete | Packages/Sources/NestCore/Schema.swift:24-46 | with FTS5 available, or the index already present, the migration succeeds and leaves exactly the table, the index and the three triggers |
| Schema.MigrationWithoutFts5 | Packages/Sources/NestCore/Schema.swift:34-35 | without FTS5 the script stops at the virtual table: only the items table exists and the error is "no such module" |
| Schema.SyncedCoversAndAgrees | Packages/Sources/NestCore/Schema.swift:34-45 | an index in step with the table indexes every live row, under its current payload |
| Schema.InsertTriggerEffect | Packages/Sources/NestCore/Schema.swift:36-38 | `memory_ai` adds exactly the new rowid with its payload to the index |
| Schema.DeleteTriggerEffect | Packages/Sources/NestCore/Schema.swift:39-41 | `memory_ad` removes exactly the deleted rowid's entry |
| Schema.UpdateTriggerEffect | Packages/Sources/NestCore/Schema.swift:42-45 | `memory_au` leaves the rowid indexed under the new payload and nothing else changed |
| Schema.InsertKeepsSynced | Packages/Sources/NestCore/Schema.swift:36-38 | an insert through the trigger keeps the index exactly in step with the table |
| Schema.DeleteKeepsSynced | Packages/Sources/NestCore/Schema.swift:39-41 | a delete through the trigger keeps the index exactly in step |
| Schema.UpdateKeepsSynced | Packages/Sources/NestCore/Schema.swift:42-45 | an update through the trigger keeps the index exactly in step |
| Schema.ReplaceDeleteLeavesStaleEntry | Packages/Sources/NestCore/MemoryStore.swift:29 | the conflict deletion of `INSERT OR REPLACE` fires no trigger, so the index keeps an entry for a rowid that no longer exists |
| MemoryStore.Open | Packages/Sources/NestCore/MemoryStore.swift:17-26 | opening runs the migration with its error ignored: rows and indexes are untouched and the catalog only grows |
| MemoryStore.OpenKeepsValid | Packages/Sources/NestCore/MemoryStore.swift:22-25 | opening keeps the store invariant, always provides the items table, and with FTS5 gives exactly the five schema objects |
| MemoryStore.OpenIdempotent | Packages/Sources/NestCore/MemoryStore.swift:22-25 | opening an opened store changes nothing |
| MemoryStore.OpenNewFile | Packages/Sources/NestCore/MemoryStore.swift:17-26 | a new database file opened with FTS5 is valid and its index is in step |
| MemoryStore.OpenLateIndexMissesRows | Packages/Sources/NestCore/MemoryStore.swift:22-25 | an index created by a later open, over a table that already has rows, misses those rows, because nothing rebuilds it |
| MemoryStore.TagsColumn | Packages/Sources/NestCore/MemoryStore.swift:35 | the tags column always holds the JSON text of the tag array |
| MemoryStore.ToRow | Packages/Sources/NestCore/MemoryStore.swift:29-37 | the written row's id parses back to the item's id, its type back to the payload type, its embedding has four bytes per float, its tags decode back, and it keeps timestamp, payload and flags |
| MemoryStore.TagsOf | Packages/Sources/NestCore/MemoryStore.swift:56-61 | reading tags gives the decoded array, or an empty one for a missing or malformed column |
| MemoryStore.RowToItem | Packages/Sources/NestCore/MemoryStore.swift:54-67 | reading a row falls back to a fresh id for an unparsable id and to text for an unknown type; the tags are the decoded JSON array, or none when the column is missing or malformed; the embedding is the little-endian words of the column's whole four-byte groups, or empty when missing |
| MemoryStore.RowRoundTrip | Packages/Sources/NestCore/MemoryStore.swift:28-67 | reading back a written row gives the item that was written |
| MemoryStore.Upsert | Packages/Sources/NestCore/MemoryStore.swift:29-38 | the replace write drops the row holding the id, adds the new row under the next rowid, points the id at it, and indexes only the new rowid |
| MemoryStore.Write | Packages/Sources/NestCore/MemoryStore.swift:28-39 | the write fails exactly when the items table is missing, and otherwise stores the item's row under the next rowid |
| MemoryStore.UpsertKeepsPk | Packages/Sources/NestCore/MemoryStore.swift:29-38 | after a replace write each id still names exactly one live row |
| MemoryStore.UpsertKeepsRowids | Packages/Sources/NestCore/MemoryStore.swift:29-38 | rowids stay below the next one |
| MemoryStore.UpsertKeepsAgreement | Packages/Sources/NestCore/MemoryStore.swift:29-38 | every indexed live row is still indexed under its current payload |
| MemoryStore.UpsertContents | Packages/Sources/NestCore/MemoryStore.swift:29-38 | the table's contents by id after the write are the contents before, with the id mapped to the new row |
| MemoryStore.WriteUpserts | Packages/Sources/NestCore/MemoryStore.swift:28-39 | on an opened valid store a write succeeds and sets the item's id to its row |
| MemoryStore.WriteKeepsValid | Packages/Sources/NestCore/MemoryStore.swift:28-39 | a successful write keeps the store invariant |
| MemoryStore.WriteKeepsCovered | Packages/Sources/NestCore/MemoryStore.swift:28-39 | with the insert trigger in place, a write keeps every live row indexed |
| MemoryStore.RewriteLeavesStaleEntry | Packages/Sources/NestCore/MemoryStore.swift:29 | rewriting an id that is already stored leaves an index entry without a row |
| MemoryStore.Limit | Packages/Sources/NestCore/MemoryStore.swift:43 | `LIMIT n` keeps the first n rows, and all of them when n is negative |
| MemoryStore.SearchRowids | Packages/Sources/NestCore/MemoryStore.swift:43 | the join returns at most `limit` rowids, each live, indexed and matching the query |
| MemoryStore.Items | Packages/Sources/NestCore/MemoryStore.swift:45 | each returned rowid becomes the item its row reads as |
| MemoryStore.Search | Packages/Sources/NestCore/MemoryStore.swift:41-46 | an empty query returns nothing without touching the database; otherwise it fails exactly when a table is missing or the query is malformed; results never exceed the limit |
| MemoryStore.SearchSound | Packages/Sources/NestCore/MemoryStore.swift:43 | every result is a live row whose current payload matches the query |
| MemoryStore.SearchDistinct | Packages/Sources/NestCore/MemoryStore.swift:43 | no rowid is returned twice |
| MemoryStore.SearchComplete | Packages/Sources/NestCore/MemoryStore.swift:43 | a search the limit does not cut returns every indexed live row that matches |
| MemoryStore.SearchUncut | Packages/Sources/NestCore/MemoryStore.swift:43 | with a limit no smaller than the table, the result is all the engine's hits that are live rows, in engine order |
| MemoryStore.SearchFindsWritten | Packages/Tests/NestCoreTests/MemoryStoreTests.swift:7-12 | after writing an item into the five-object schema, a search whose text matches its payload returns the item, unless more live rows match than the limit lets through |
| MemoryStore.SearchFindsWrittenDefault | Packages/Tests/NestCoreTests/MemoryStoreTests.swift:9-11 | with the default limit of 50 from MemoryStore.swift:41, the written item is among at most fifty results when no more than fifty live rows match |
| MemoryStore.SearchMisses | Packages/Tests/NestCoreTests/MemoryStoreTests.swift:14-20 | a search that matches no stored payload returns nothing, stale entries included |
| MemoryStore.Texts | Packages/Sources/NestCore/MemoryStore.swift:51 | each payload becomes its UTF-8 text, or the empty string when it is not UTF-8 |
| MemoryStore.RetrieveForPrompt | Packages/Sources/NestCore/MemoryStore.swift:48-52 | without the table, or with a zero budget, the prompt is empty |
| MemoryStore.RetrieveTakesNewest | Packages/Sources/NestCore/MemoryStore.swift:48-52 | the prompt joins, one per line, the texts of min(budget, rows) distinct live rows, all rows for a negative budget, newest first, none of them older than a row left out |
| MemoryStore.LeftOutIsOlder | Packages/Sources/NestCore/MemoryStore.swift:49 | a row the limit leaves out is no newer than any row taken |
| LegacyMigration.PayloadTypeOf | Scripts/migrate_coredata_to_nest.swift:22 | a legacy type is text if it mentions "text", otherwise image if it mentions "image", otherwise data, and never a URL |
| LegacyMigration.ToItem | Scripts/migrate_coredata_to_nest.swift:16-23 | a record gives an item exactly when all four attributes are present; the item keeps id, timestamp and payload and has empty embedding and tags and zero flags |
| LegacyMigration.MigrateSkipsIncomplete | Scripts/migrate_coredata_to_nest.swift:16-21 | the loop does exactly what it does on the complete records alone |
| LegacyMigration.MigrateContents | Scripts/migrate_coredata_to_nest.swift:14-26 | on an opened valid store every write succeeds, the invariant holds throughout, and the table ends as its contents overlaid with the records' rows in order |
| LegacyMigration.ApplyIsUnion | Scripts/migrate_coredata_to_nest.swift:23-24 | one record's effect is a single-entry overlay |
| LegacyMigration.OverlayIsUnion | Scripts/migrate_coredata_to_nest.swift:14-26 | the records' effect is the earlier contents overlaid with what the records alone produce |
| LegacyMigration.OverlayIdempotent | Scripts/migrate_coredata_to_nest.swift:14-26 | applying the same records twice is applying them once |
| LegacyMigration.OverlayIncomplete | Scripts/migrate_coredata_to_nest.swift:16-21 | records that are all incomplete change nothing |
| LegacyMigration.RunScriptContents | Scripts/migrate_coredata_to_nest.swift:14-26 | the script keeps a valid file valid; a failed fetch leaves it alone, otherwise the table holds its old contents overlaid with the complete records' rows |
| LegacyMigration.RunScriptIdempotent | Scripts/migrate_coredata_to_nest.swift:14-26 | a second run of the script changes no row's contents |
| Utf8.DecodeEncode | Packages/Sources/NestCore/MemoryStore.swift:51 | the UTF-8 bytes of a string decode back to it |
| Utf8.EncodeDecode | Packages/Sources/NestCore/MemoryStore.swift:51 | well-formed UTF-8 is the encoding of what it decodes to |
| Utf8.DecodeIff | clipScope/NestView.swift:306 | bytes decode to a string exactly when they are that string's encoding |
| Base64.DecodeEncode | clipScope/ClipStorage.swift:26 | the Base 64 text the storage writes decodes back to the saved data |
| Base64.DecodeRejectsForeign | clipScope/NestView.swift:305 | text holding a character outside the alphabet and padding does not decode |
| Uuid.ParseUuidString | Packages/Sources/NestCore/MemoryStore.swift:55 | the id string written for a UUID parses back to that UUID |
| Embedding.EncodeLength | Packages/Sources/NestCore/MemoryStore.swift:34 | the embedding column has four bytes per float |
| Embedding.DecodeLength | Packages/Sources/NestCore/MemoryStore.swift:62-65 | reading the column gives one float per whole four bytes |
| Embedding.DecodeIgnoresTail | Packages/Sources/NestCore/MemoryStore.swift:62-65 | trailing bytes short of a whole float are dropped |
| Embedding.DecodeEncode | Packages/Sources/NestCore/MemoryStore.swift:34 | an embedding written out reads back unchanged |
| TagsJson.ParseItemsJoin | Packages/Sources/NestCore/MemoryStore.swift:56-61 | the decoder reads the encoder's comma-separated quoted strings back as the tags |
| TagsJson.DecodeEncode | Packages/Sources/NestCore/MemoryStore.swift:35 | the JSON text of a tag array decodes back to that array |
| Clips.FileTypeOf | clipScope/ClipItem.swift:12-24 | the file type is PDF exactly when the type string contains "pdf", `.none` exactly when it contains none of the four keywords, and never `.unknown` |
| Clips.FileTypeIsFirstMatch | clipScope/ClipItem.swift:12-24 | the classification is the first match in the keyword table pdf, word, audio, video |
| Clips.UpperCasePdfIsNone | clipScope/ClipItem.swift:13 | the keywords are matched case-sensitively: "PDF" is `.none` |
| Clips.FirstKeywordWins | clipScope/ClipItem.swift:13-14 | a type string naming both pdf and video is a PDF |
| Clips.SourceAppName | clipScope/NestView.swift:297-299 | the shown name is "Unknown App" exactly when the name is empty or is literally that text, and is never empty |
| Clips.DecodedText | clipScope/NestView.swift:305-306 | there is a text exactly when the data is Base 64 of the UTF-8 bytes of some string, and then its UTF-8 bytes are what the data decodes to |
| Clips.Matches | clipScope/NestView.swift:301-311 | an entry matches when its application name contains the query, otherwise exactly when its payload is text containing it; an empty query matches nothing |
| Clips.TypeDescription | clipScope/NestView.swift:285-295 | an image is described as "Image"; a non-image is described by its file type: "PDF Document", "Word Document", "Audio File", "Video File", or "Text" for `.none`; nothing is described as "File" |
| Clips.IconName | clipScope/NestView.swift:270-283 | a PDF shows "doc.richtext.fill", a Word document "doc.text.fill", audio "waveform", video "video.fill"; a `.none` image shows "photo", a `.none` text "text.quote", any other `.none` entry "doc.on.doc"; the unknown-type icon never appears |
| Clips.MatchesStoredText | clipScope/NestView.swift:305-308 | a stored text entry matches every query its text contains |
| Clips.DecodesStoredText | clipScope/NestView.swift:305-306 | text stored as the Base 64 of its UTF-8 bytes reads back as that text |
| Clips.IsFileEntry | clipScope/AppDelegate.swift:95-99 | an entry counts as a file exactly when its type names neither text nor image and it is classified as PDF, Word, audio or video |
| Clips.Narrow | clipScope/NestView.swift:23-38 | both views list exactly the history entries that pass the search and, unless the category is All, the view's category test |
| Clips.EmptyQueryShowsAll | clipScope/AppDelegate.swift:83-89 | in either view an empty query with All lists the whole history |
| Clips.NarrowKeepsOrder | clipScope/AppDelegate.swift:82-101 | filtering keeps history order: the filter of a concatenation is the concatenation of the filters |
| Clips.FilteredItems | clipScope/AppDelegate.swift:82-101 | the quick menu lists an entry exactly when it is in the history, passes the search and passes the quick menu's category test |
| ClipStorage.InitialExpireInterval | clipScope/ClipStorage.swift:17-23 | the expiry interval is the stored one, or one day when none is stored, and never 0 |
| ClipStorage.Save | clipScope/ClipStorage.swift:25-33 | the new entry goes in front of the unchanged history, with the given fields and Base 64 data that decodes to the saved bytes |
| ClipStorage.Delete | clipScope/ClipStorage.swift:35-40 | no entry with the id is left, and every other entry stays |
| ClipStorage.DeleteCounts | clipScope/ClipStorage.swift:37 | deleting keeps every other entry as often as it occurred |
| ClipStorage.DeleteIdempotent | clipScope/ClipStorage.swift:37 | deleting the same id twice is deleting it once |
| ClipStorage.DeleteKeepsOrder | clipScope/ClipStorage.swift:37 | deleting keeps the relative order of the remaining entries |
| ClipStorage.DeleteUndoesSave | clipScope/ClipStorage.swift:25-40 | deleting the entry just saved, under a new id, gives back the history before the save |
| ClipStorage.DeleteExpired | clipScope/ClipStorage.swift:42-50 | exactly the entries at or after the cutoff remain |
| ClipStorage.DeleteExpiredCounts | clipScope/ClipStorage.swift:47 | expiry removes every entry older than the cutoff and keeps each other entry as often as it occurred |
| ClipStorage.DeleteExpiredKeepsOrder | clipScope/ClipStorage.swift:47 | expiry keeps the relative order of the remaining entries |
| ClipStorage.DeleteExpiredLater | clipScope/ClipStorage.swift:42-50 | expiring at a later time after an earlier one is expiring at the later time alone |
| ClipStorage.Insert | clipScope/ClipStorage.swift:56 | placing an entry adds exactly that entry |
| ClipStorage.InsertSorted | clipScope/ClipStorage.swift:56 | placing an entry in a newest-first list keeps it newest first |
| ClipStorage.SortNewestFirst | clipScope/ClipStorage.swift:56 | sorting keeps the length; entries with equal timestamps keep their stored order, as Swift's stable `sorted(by:)` does, which is what SortKeepsSorted and OperationsKeepNewestFirst rest on |
| ClipStorage.SortCorrect | clipScope/ClipStorage.swift:56 | the sorted history is newest first and a permutation of the input |
| ClipStorage.SortKeepsSorted | clipScope/ClipStorage.swift:56 | a history already newest first is left as it is |
| ClipStorage.Load | clipScope/ClipStorage.swift:52-61 | nothing stored or undecodable gives an empty history, otherwise one entry per stored entry |
| ClipStorage.LoadSorts | clipScope/ClipStorage.swift:56 | the loaded history is a newest-first permutation of what was stored |
| ClipStorage.FilterKeepsNewestFirst | clipScope/ClipStorage.swift:37 | removing entries keeps a newest-first history newest first |
| ClipStorage.OperationsKeepNewestFirst | clipScope/ClipStorage.swift:25-61 | while the clock does not run backwards, save, delete and expiry keep the history newest first, so loading it back changes nothing |
| NestView.FilteredItems | clipScope/NestView.swift:23-38 | the main window lists an entry exactly when it is in the history, passes the search and, under Text or Images, has that word in its type; under Files no entry is excluded |
| NestView.FilesShowsEverything | clipScope/NestView.swift:35-36 | as written, the Files category lists the same entries as All |
| NestView.TextEntryShownAsFile | clipScope/NestView.swift:36 | as written, a plain-text entry is listed under Files |
| NestView.FilesShowsOnlyFiles | clipScope/NestView.swift:36 | with the quick menu's test, Files lists no text entry and no entry of type `.none`, and the other categories are unchanged |
| NestView.TextEntryNotShownAsFile | clipScope/NestView.swift:36 | with the quick menu's test, the plain-text entry is no longer under Files |
| QuickMenu.VisibleRows | clipScope/AppDelegate.swift:243 | at most ten rows are shown, they begin the filtered list, and the whole list is shown when it is shorter |
| QuickMenu.VisibleRowsAreFirst | clipScope/AppDelegate.swift:243 | an entry of the filtered list is shown exactly when fewer than ten come before it |
| QuickMenu.SelectedTextItems | clipScope/AppDelegate.swift:103-105 | the selected text items are exactly the history entries that are selected and are text |
| QuickMenu.OnTap | clipScope/AppDelegate.swift:249-263 | in combine mode a tap toggles the id in the selection and touches nothing else; otherwise it makes the entry the tapped one, or clears it if it already was |
| QuickMenu.TapTwice | clipScope/AppDelegate.swift:249-263 | tapping twice restores the state exactly when combine mode is on or no other entry was the tapped one |
| QuickMenu.OnCombine | clipScope/AppDelegate.swift:264-274 | only a text entry has the button; it toggles the id, and adding one switches combine mode on |
| QuickMenu.OnDelete | clipScope/AppDelegate.swift:275-279 | deleting drops the id from the selection, clears the tapped entry, and leaves the history with every entry of the id removed and every other entry kept, in order (the storage's delete) |
| QuickMenu.DeleteKeepsOtherSelected | clipScope/AppDelegate.swift:275-279 | after a delete the selected text items are those before, less the deleted entry |
| QuickMenu.DecodedTexts | clipScope/AppDelegate.swift:321-325 | the texts are at most one per entry; every entry that decodes contributes its text, and every text comes from an entry that decodes to it |
| QuickMenu.DecodedTextsConcat | clipScope/AppDelegate.swift:321-325 | the texts of a concatenation are the texts of each part, in order |
| QuickMenu.DecodedTextsSingle | clipScope/AppDelegate.swift:321-325 | one entry contributes its decoded text, or nothing when it does not decode |
| QuickMenu.CombineSelectedItems | clipScope/AppDelegate.swift:320-335 | the combined text is the decoded selected texts joined with line breaks; combining empties the selection, and an empty selection combines to the empty text |
| QuickMenu.CombineConcat | clipScope/AppDelegate.swift:321-326 | the combined text of two runs of entries is each run's combined text, with one line break between them when both contribute text |
| Common.JoinConcat | clipScope/AppDelegate.swift:326 | joining two non-empty lists of parts is joining each with one separator between them |
| QuickMenu.CombineAfterSave | clipScope/AppDelegate.swift:320-326 | a newly saved, selected text entry is the first line of the combined text, followed by the older selected texts |
| QuickMenu.CombineIgnoresUnselected | clipScope/AppDelegate.swift:321-326 | entries that are not selected text do not change the combined text |
| QuickMenu.ToggleButton | clipScope/AppDelegate.swift:137 | the button flips combine mode and empties the selection when it switches the mode off |
| QuickMenu.CombineModeChanged | clipScope/AppDelegate.swift:289-293 | the change handler combines exactly when combine mode is off and the selection is not empty, and then empties it |
| QuickMenu.ToggleCombineAsWritten | clipScope/AppDelegate.swift:137 | as written, pressing the button flips combine mode, never puts anything on the pasteboard, and discards the selection when it switches the mode off |
| QuickMenu.EventsKeepSelectionInCombineMode | clipScope/AppDelegate.swift:206-236 | tap, combine, delete and the combine-mode button never leave a non-empty selection outside combine mode |
| QuickMenu.AsWrittenNeverCombines | clipScope/AppDelegate.swift:289-293 | in every state the events reach, the change handler finds nothing to combine |
| QuickMenu.AsWrittenDropsSelection | clipScope/AppDelegate.swift:137 | a text entry selected with its combine button is discarded, not combined, when combine mode is switched off |
| QuickMenu.ToggleCombine | clipScope/AppDelegate.swift:289-293 | switching combine mode off combines a non-empty selection onto the pasteboard and empties it; switching it on changes nothing else |
| QuickMenu.ToggleCombineCombines | clipScope/AppDelegate.swift:289-293 | the corrected button keeps a non-empty selection inside combine mode and puts the selected entry's text on the pasteboard |

## Left out

- Opening the database file: the file system, the connection and a failed connection (a nil `db`) are left out. `Open` takes the database as a value, and whether the SQLite build has FTS5 is a parameter.
- The FTS5 tokenizer and query language are left out, because they are SQLite internals. The engine is a parameter.
- `retrieveForPrompt`'s `try?` on a failing scan is not modelled separately. A missing table gives the empty prompt.
- Floating-point values: timestamps are whole seconds and floats are bit patterns, so no floating-point arithmetic is modelled.
- Core Data: opening the persistent container and fetching `ClipboardItem` objects are left out. The fetched records are a parameter, `None` when the fetch fails.
- `UserDefaults` persistence and JSON coding of the clip history are left out. `Load` takes what the defaults database returned, already decoded.
- The `DispatchQueue.main.async` deferral in `save`, `delete` and `deleteExpiredItems` is left out. Each operation is applied whole, in the order the calls were made.
- The `didSet` observer of `expireInterval`, which writes the value back to the defaults database, is left out.
- The pasteboard, `ClipboardWatcher.willCopyFromCombineOperation`, `copyItem`, view layout, icons of the filter buttons and the list/grid switch are left out, because they are user-interface and system calls. The grid (AppDelegate.swift:200) and the list (AppDelegate.swift:243) share every closure, so one model covers both.
- Clips.Matches: `localizedCaseInsensitiveContains` is modelled as ASCII case folding. Locale-aware folding and Unicode normalisation are not modelled.
- MemoryStore.Open: assumes `db.run(sql)` executes every statement of `initialMigrationSQL`. The version of SQLite.swift the package pins may prepare only the first statement of a multi-statement string in `run`, and that library's API is not part of this model, so whether all five objects are really created is not established here.
- MemoryStore.RowToItem: requires the stored flags to be between 0 and 255. `UInt8(row[flags])` traps on any other value, which only a row not written by this store can hold; `MemoryStore.WriteKeepsValid` shows every row this store writes meets it.
- MemoryStore.RetrieveForPrompt: its own contract states only the empty cases. The full statement is the lemma MemoryStore.RetrieveTakesNewest.
- MemoryStore.Search: the order of results is the engine's visit order, which is a parameter. No ranking is modelled.
- MemoryStore.Search: models the evident intent of MemoryStore.swift:44-45, not the literal code. `db.prepare(sql, text, limit)` yields a raw statement whose rows are positional value arrays, but `rowToItem` (line 54) takes a `Row` read by column expression, so the code as written does not type-check; the model reads each hit by column name. On the same reading of SQLite.swift, an FTS5 syntax error in the bound MATCH text would be raised while the rows are stepped, not by `prepare`; the model returns it as `Err(MalformedQuery)` from the call either way. SQLite.swift is not part of this model.
- MemoryStore.Search: the Swift default `limit: Int = 50` is not a default argument here; callers pass the limit, and `MemoryStore.DefaultLimit` with MemoryStore.SearchFindsWrittenDefault covers the call `search(text:)` the tests make.
- Utf8.Decode: a leading byte-order mark EF BB BF is kept and decodes to U+FEFF. Some Foundation versions drop it in `String(data:encoding: .utf8)`; that behaviour lies outside the source and is not modelled, so MemoryStore.Texts, Clips.DecodedText and QuickMenu.DecodedTexts keep a leading U+FEFF too.
- LegacyMigration.RunScriptIdempotent: states that a second run leaves the table's contents unchanged. It does not claim the rowids are unchanged, because each rewrite moves a row to a new rowid.

## Findings

| source | as written | input that shows it | evidently intended | confidence | as-written member | corrected member |
|---|---|---|---|---|---|---|
| clipScope/NestView.swift:36 | the Files category keeps every entry whose `fileType` is not `.unknown`, but `fileType` never returns `.unknown`, so Files lists everything | an entry of type "public.utf8-plain-text" is listed under Files | Files lists file entries only, as the quick menu's test at AppDelegate.swift:95-99 does | not executed; medium | NestView.FilesShowsEverything | NestView.FilesShowsOnlyFiles |
| clipScope/AppDelegate.swift:137 | the combine-mode button empties the selection when it switches the mode off, before the change handler at lines 289-293 runs, so `combineSelectedItems` is never reached | select a text entry with its combine button, then press the combine-mode button: nothing is put on the pasteboard and the selection is gone | switching combine mode off combines the selected texts onto the pasteboard, and the change handler then empties the selection | not executed; medium | QuickMenu.ToggleCombineAsWritten | QuickMenu.ToggleCombine |
