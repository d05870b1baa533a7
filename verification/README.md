# FieldLog core in Dafny

FieldLog is a React Native field-notes app. Notes carry a title, content, an
optional position, a colour, a favourite flag and tags. The app also keeps a
log of position fixes. Everything lives in one SQLite database with four
tables: `notes`, `tags`, `note_tags` and `location_history`. Backups go to
JSON files.

This project models the data logic of the app as pure functions over an
abstract database state, and proves properties about it:

- `schema.dfy` (module `Schema`): the four tables, their declared constraints
  (`UNIQUE` tag names, unique note/tag pairs, `ON DELETE CASCADE`), the
  AUTOINCREMENT counters, `initDatabase` and `dropAllTables`.
- `note_repository.dfy` (`NoteRepository`): every exported operation of the
  note and tag repository.
- `location_repository.dfy` (`LocationRepository`): the location log.
- `backup_service.dfy` (`BackupService`): the document `exportData` writes
  and its path, `importData`'s merge, and `restoreFromBackup`.
- `app_context.dfy` (`AppContext`): the two list refreshes the screens call
  after writing.
- `search_screen.dfy`, `home_screen.dfy`, `create_note_screen.dfy`,
  `settings_screen.dfy`: the rules of those screens.
- `version_bump.dfy` (`VersionBump`): the release script's version and
  build-number arithmetic.
- `wrappers.dfy`, `seqs.dfy`, `sorting.dfy`, `text.dfy`: helpers. These are
  `Option`/`Result`, order-preserving filter and map, a stable sort, and the
  string functions the source relies on (trim, lower-case, substring,
  decimal printing and `parseInt`, split and join).

Modelling choices:

- Every repository call is one statement run against the state. Before the
  schema exists, every call fails with SQLite's "no such table" error and
  changes nothing (`Schema.Ready`).
- A full table scan returns rows in ascending id order. `ORDER BY ... DESC`
  is modelled as a stable sort of that scan, so equal timestamps keep
  ascending-id order.
- The clock (`Date.now()`, `toISOString()`) is a parameter. The file system,
  the share sheet and the document picker are also parameters: the parsed
  document, or the path the file would be written to.
- Screen state (the shown lists, the text inputs) is passed in and returned.

`searchNotes('')` is not the same as `getAllNotes()`. It leaves out every
note whose title, content and place name are all NULL and which has no tag,
because NULL never matches `LIKE`. `NoteRepository.SearchEmptyQuery` states
exactly which notes it returns. The search screen's fallback is commented
"Get all notes and filter by tags" (`src/screens/SearchScreen.tsx:64`), yet it
calls `searchNotes('')`. The model follows what the code calls, and
`SearchScreen.TaggedIsSearchable` shows the difference does not matter there,
since a note with a selected tag always has a tag.

## Model

| member | source | states |
|---|---|---|
| Schema.InitDatabase | src/database/database.ts:21-74 | afterwards all four tables exist; existing rows and counters are kept; a valid state stays valid |
| Schema.Valid | src/database/database.ts:21-74 | the invariant every operation keeps: the constraints below, together |
| Schema.UniqueTagNames | src/database/database.ts:47 | `name TEXT NOT NULL UNIQUE`: no two tags share a name |
| Schema.RelationsResolve | src/database/database.ts:57-58 | both foreign keys of every `note_tags` row resolve |
| Schema.FlagsEncoded | src/database/database.ts:37 | `is_favorite` holds 0 or 1, the only values the code writes |
| Schema.IdsWithinSequences | src/database/database.ts:29 | no row id exceeds its table's AUTOINCREMENT counter |
| Schema.DependencyClosed | src/database/database.ts:53-58 | `note_tags` exists only together with the two tables it references |
| Schema.MissingTablesEmpty | src/database/database.ts:21-84 | a table that does not exist holds no rows |
| Schema.CreateTable | src/database/database.ts:28 | `CREATE TABLE IF NOT EXISTS` is a no-op when the table exists |
| Schema.DropTable | src/database/database.ts:80-83 | `DROP TABLE IF EXISTS` removes the table with its rows and its counter |
| Schema.InitDatabaseIdempotent | src/database/database.ts:21-74 | `CREATE TABLE IF NOT EXISTS` makes a second run change nothing, and a run on an initialised database is a no-op |
| Schema.InSchemaOrders | src/database/database.ts:21-84 | the create statements and the drop statements each cover all four tables |
| Schema.DropAllTables | src/database/database.ts:76-84 | whatever the state, the result is the empty database, which is valid |
| Schema.DropAllTablesStepsValid | src/database/database.ts:76-84 | every intermediate state of the drop sequence satisfies the schema's constraints |
| Schema.DropOrderMatters | src/database/database.ts:53-58 | dropping `notes` while `note_tags` exists would leave a relation table whose referenced table is gone |
| Schema.DropTableValid | src/database/database.ts:76-84 | dropping a table no remaining table references keeps the state valid |
| Schema.ApplyCreates | src/database/database.ts:21-74 | running create statements adds exactly the named tables and touches no row |
| Schema.ApplyDrops | src/database/database.ts:76-84 | running drop statements removes exactly the named tables with their rows and counters |
| Schema.DeleteNoteRows | src/database/database.ts:57 | deleting notes removes exactly their relation rows too, by the cascade, and keeps the state valid |
| Schema.DeleteTagRows | src/database/database.ts:58 | deleting tags removes exactly their relation rows too, by the cascade, and keeps the state valid |
| Schema.ForeignKeysAssumed | src/database/database.ts:53-58 | removing a tagged note's row without the cascade leaves a relation row that resolves to nothing |
| Schema.IdsUpTo | src/database/noteRepository.ts:183 | the scan order: exactly the ids present, strictly ascending |
| NoteRepository.FindTag | src/database/noteRepository.ts:307-316 | the lookup by name finds the tag with that name, or none exists |
| NoteRepository.ScanForTag | src/database/noteRepository.ts:307-316 | the tag the name lookup finds along a scan carries the name |
| NoteRepository.EncodeFlag | src/database/noteRepository.ts:37 | `is_favorite ? 1 : 0` |
| NoteRepository.DecodeFlag | src/database/noteRepository.ts:155 | `!!is_favorite` |
| NoteRepository.OrNow | src/database/noteRepository.ts:38-39 | `x || now`: a zero stamp falls back to the clock |
| NoteRepository.SaveTag | src/database/noteRepository.ts:294-331 | afterwards exactly one tag has the name; an existing name changes nothing; other tags keep id and name |
| NoteRepository.NewTagValid | src/database/noteRepository.ts:299-304 | a new name goes under the next counter value, which no tag holds, and becomes the only tag with that name |
| NoteRepository.AttachTag | src/database/noteRepository.ts:333-357 | one loop pass: get-or-create the tag and link it to an existing note; every other note's relations are kept |
| NoteRepository.AddRelationTagged | src/database/noteRepository.ts:333-357 | adding a pair tags the note with exactly its previous names plus the tag's name |
| NoteRepository.SaveNoteTags | src/database/noteRepository.ts:333-357 | the note ends up tagged with its previous names plus the listed names; every listed name exists as a tag |
| NoteRepository.TagNamesOf | src/database/noteRepository.ts:359-386 | the join lists exactly the names the note is tagged with, each once |
| NoteRepository.GetNoteTagsByNoteId | src/database/noteRepository.ts:359-386 | fails without the schema; otherwise exactly the note's tag names, each once |
| NoteRepository.NamesOfDistinct | src/database/database.ts:47 | because tag names are UNIQUE, distinct tag ids give distinct names |
| NoteRepository.RemoveNoteTagsByNoteId | src/database/noteRepository.ts:388-404 | removes exactly the note's relation rows and nothing else |
| NoteRepository.GetAllTags | src/database/noteRepository.ts:406-431 | every tag name exactly once, ordered by name |
| NoteRepository.ReadNote | src/database/noteRepository.ts:143-175 | a read gives back the row's columns with the flag decoded and exactly the note's tag names |
| NoteRepository.ScanNotes | src/database/noteRepository.ts:177-212 | the scan holds every stored note exactly once and nothing else |
| NoteRepository.ReadNotes | src/database/noteRepository.ts:187-197 | the listed rows read in order, one note per id |
| NoteRepository.ReadNotesFilter | src/database/noteRepository.ts:256-292 | a WHERE clause on the rows that agrees with a test on the read notes is a filter of the read list |
| NoteRepository.GetAllNotes | src/database/noteRepository.ts:177-212 | fails without the schema; otherwise every stored note exactly once, newest first |
| NoteRepository.GetFavoriteNotes | src/database/noteRepository.ts:256-292 | the favourites are exactly the full listing filtered by the flag, in the same order |
| NoteRepository.IsFavoriteNote | src/database/noteRepository.ts:262 | `WHERE is_favorite = 1`, stated on the read note's decoded flag |
| NoteRepository.RowMatchesRead | src/database/noteRepository.ts:221-224 | the LEFT JOIN condition on the rows agrees with the match test on the read note with its tags |
| NoteRepository.Like | src/database/noteRepository.ts:217-224 | `column LIKE '%q%'`: NULL never matches; ASCII case is ignored |
| NoteRepository.RowMatches | src/database/noteRepository.ts:221-224 | the WHERE clause over a note's LEFT JOIN rows: a searched column or one tag name contains the query |
| NoteRepository.NoteMatches | src/database/noteRepository.ts:221-224 | the same test stated on a read note |
| NoteRepository.MatchesQuery | src/database/noteRepository.ts:221-224 | that test as a filter |
| NoteRepository.SearchNotes | src/database/noteRepository.ts:214-254 | the result is the full listing filtered by the match test: each matching note once, newest first |
| NoteRepository.SearchEmptyQuery | src/database/noteRepository.ts:217-224 | an empty query returns exactly the notes with some non-NULL searched field or a tag |
| NoteRepository.HasSearchableField | src/database/noteRepository.ts:217-224 | what `LIKE '%%'` keeps: a non-NULL title, content or place name, or a joined tag |
| NoteRepository.SaveNote | src/database/noteRepository.ts:18-60 | inserts under a fresh AUTOINCREMENT id not held by any note; zero stamps become `now`; a non-empty tag list tags the note with exactly those names; nothing else changes |
| NoteRepository.InsertedNote | src/database/noteRepository.ts:24-40 | the row `saveNote` inserts: the note's columns, with zero stamps taken from the clock |
| NoteRepository.UpdateNote | src/database/noteRepository.ts:62-117 | a missing or zero id, a missing schema and a missing row each give their error; on success only that row changes, `updated_at` is `now` and `created_at` is kept; defined tags replace the note's tags |
| NoteRepository.UpdatedNote | src/database/noteRepository.ts:72-89 | the row `updateNote` writes: the note's columns, `created_at` kept, `updated_at` from the clock |
| NoteRepository.UpdateTagsContract | src/database/noteRepository.ts:93-105 | undefined tags keep the note's tag names; an empty tag list clears them |
| NoteRepository.DeleteNote | src/database/noteRepository.ts:119-141 | succeeds exactly when the row exists; the row and its relation rows go and tags stay |
| NoteRepository.GetNoteById | src/database/noteRepository.ts:143-175 | succeeds exactly when the row exists, and returns its columns and exactly its tag names |
| NoteRepository.DeleteAllNotes | src/database/noteRepository.ts:433-449 | no note and no relation row is left; tags and locations are untouched |
| NoteRepository.OtherTaggingKept | src/database/noteRepository.ts:333-357 | a write confined to one note's relations leaves every other note's tag names unchanged |
| NoteRepository.SameTaggingSameRelations | src/database/database.ts:51-59 | with the same tags, a note's relation rows are determined by the names it carries |
| NoteRepository.SaveThenGet | src/database/noteRepository.ts:18-60 | reading a saved note back gives its fields, its flag through the 1/0 encoding, `now` for zero stamps, and exactly its tag names |
| NoteRepository.DeleteThenGet | src/database/noteRepository.ts:119-141 | after deleting a note it cannot be read and is not listed |
| NoteRepository.DeleteAllThenList | src/database/noteRepository.ts:433-449 | after deleting all notes the listing is empty |
| LocationRepository.ReadLocation | src/database/locationRepository.ts:39-89 | a read gives back the stored columns under the row's id |
| LocationRepository.LocationRowOf | src/database/locationRepository.ts:18-27 | the four columns `saveLocation` writes: latitude, longitude, timestamp and place name (the restore insert at src/utils/backupService.ts:209-217 writes the same four under the record's id) |
| LocationRepository.ReadLocations | src/database/locationRepository.ts:73-78 | the row-read loop: one record per listed id, in the listed order |
| LocationRepository.ScanLocations | src/database/locationRepository.ts:39-89 | every stored record exactly once |
| LocationRepository.SaveLocation | src/database/locationRepository.ts:12-37 | appends one record under an id larger than every id before it; nothing else changes |
| LocationRepository.GetLocationHistory | src/database/locationRepository.ts:39-89 | exactly the records inside the inclusive bounds, each once, latest first |
| LocationRepository.Present | src/database/locationRepository.ts:48-54 | a bound takes part only when it is truthy, so 0 counts as absent |
| LocationRepository.InRange | src/database/locationRepository.ts:48-63 | the WHERE clause built from the bounds, both inclusive |
| LocationRepository.ZeroBoundIsAbsent | src/database/locationRepository.ts:48-63 | a bound of 0 is falsy, so it selects the same records as no bound |
| LocationRepository.UnboundedHistory | src/database/locationRepository.ts:39-89 | with no bound the history is the whole log |
| LocationRepository.GetLatestLocation | src/database/locationRepository.ts:91-113 | null exactly for an empty log; otherwise a stored record with the largest timestamp |
| LocationRepository.HeadIsLatest | src/database/locationRepository.ts:97 | the first record in `ORDER BY timestamp DESC` has the largest timestamp |
| LocationRepository.LatestIsHistoryHead | src/database/locationRepository.ts:91-113 | the latest fix is the first entry of the unbounded history |
| LocationRepository.DeleteLocationHistory | src/database/locationRepository.ts:115-156 | a record survives exactly when it lies outside the bounds; survivors are unchanged |
| LocationRepository.DeleteRemovesQueried | src/database/locationRepository.ts:115-156 | the delete removes exactly what the query with the same bounds returns |
| LocationRepository.ClearLocationHistory | src/database/locationRepository.ts:158-174 | the log is empty; the counter is kept, so ids are not reused |
| LocationRepository.ClearThenQuery | src/database/locationRepository.ts:158-174 | after a clear the history is empty and there is no latest fix |
| LocationRepository.DeleteUnboundedIsClear | src/database/locationRepository.ts:115-174 | a delete with no bounds is a clear |
| LocationRepository.LatestFirstTotal | src/database/locationRepository.ts:66 | the history's ordering is a total preorder, so the sort is well defined |
| NoteRepository.NewestFirstTotal | src/database/noteRepository.ts:183 | the note ordering is a total preorder, so the sort is well defined |
| BackupService.FileStamp | src/utils/backupService.ts:273 | the stamp has the ISO time's length, with every `:` and `.` replaced by `-` and nothing else changed |
| BackupService.ExportPath | src/utils/backupService.ts:265-274 | the path is the `backups/` folder, the name, `_`, the stamp and `.json`, in that order |
| BackupService.ExportData | src/utils/backupService.ts:247-292 | the document holds every stored note as `getAllNotes` lists it, every stored record, no settings and version `1.0.0`, and goes to the export path; a missing schema is an error |
| BackupService.InsertNoteRow | src/utils/backupService.ts:361-379 | inserting a note under an untaken explicit id adds exactly that row, untagged |
| BackupService.CreateTags | src/utils/backupService.ts:171-200 | get-or-create every name without attaching any; existing tags are kept |
| BackupService.ImportNote | src/utils/backupService.ts:319-379 | a note with neither content nor title is skipped; an existing id is updated keeping `created_at`; a new one is inserted |
| BackupService.ImportNotes | src/utils/backupService.ts:318-381 | the merge keeps every stored note with its creation stamp, keeps every tag, and leaves the location log alone; what each imported id holds is stated by `BackupService.ImportNotesRows` |
| BackupService.ImportNotesIds | src/utils/backupService.ts:318-381 | after the merge, the old ids and every id of an importable note in the file are stored |
| BackupService.ImportNotesExactIds | src/utils/backupService.ts:318-381 | when every importable note carries an id, the stored ids are exactly the old ones plus those |
| BackupService.ImportNotesKeepsOthers | src/utils/backupService.ts:318-381 | a stored note whose id the file does not import keeps its row unchanged |
| BackupService.ImportNotesKeepsTagging | src/utils/backupService.ts:318-381 | when every importable note has an id, a note the file does not import keeps its tag names |
| BackupService.ImportNoteKeepsOther | src/utils/backupService.ts:319-379 | importing one note leaves the presence, `created_at` and tag names of every other id as they were |
| BackupService.ImportNotesRows | src/utils/backupService.ts:318-381 | when the importable notes carry distinct ids, the loop leaves each stored as the import writes it |
| BackupService.ImportedHeadKept | src/utils/backupService.ts:318-381 | the rest of the loop does not overwrite the first imported note |
| BackupService.ImportedFromAcross | src/utils/backupService.ts:329-379 | a note's imported row and tags do not depend on earlier writes to other ids |
| BackupService.ImportedIdsIndex | src/utils/backupService.ts:318-321 | an id is imported exactly when an importable note of the file carries it |
| BackupService.Importable | src/utils/backupService.ts:321 | a note is skipped when it has neither content nor title |
| BackupService.ImportedRow | src/utils/backupService.ts:329-379 | the row an imported note is written with: its values, with `created_at` kept on an update |
| BackupService.TargetId | src/utils/backupService.ts:323-379 | the id a note is written under: its own, or the next AUTOINCREMENT id |
| BackupService.DistinctImportIds | src/utils/backupService.ts:318-381 | the importable notes of a file carry pairwise different ids |
| BackupService.ImportedFrom | src/utils/backupService.ts:329-379 | the note under an id holds what the import writes for it, with its listed or previous tags |
| BackupService.WritesSomething | src/utils/backupService.ts:318-406 | at least one statement would run: an importable note or a location record |
| BackupService.ImportSteps | src/utils/backupService.ts:299-419 | a well-formed import on a ready store is the note loop, then the location loop, reported as success |
| BackupService.ImportLocation | src/utils/backupService.ts:385-405 | a record whose id exists is skipped; otherwise it is inserted; existing records never change |
| BackupService.ImportLocations | src/utils/backupService.ts:384-406 | existing records are kept and every record id of the file is stored afterwards |
| BackupService.ImportData | src/utils/backupService.ts:299-419 | corrected import: a missing notes array is an error; without the tables nothing is written and the failure is reported when a statement would run; otherwise the notes are merged, then the locations, success is reported, the old and imported ids are stored (exactly those when every importable note has an id), and notes the file does not import keep their rows |
| BackupService.ImportDataRows | src/utils/backupService.ts:318-381 | when the importable notes carry distinct ids, each ends up stored with its values, the stored `created_at`, and its listed tags (or its old tags when it lists none) |
| BackupService.ImportDataAsWritten | src/utils/backupService.ts:9 | as written the store never changes, and success is reported exactly when no statement would run |
| BackupService.ImportAsWrittenLosesNotes | src/utils/backupService.ts:336-363 | a backup with one titled note fails as written, but the corrected import stores the note |
| BackupService.ReimportStoredNote | src/utils/backupService.ts:319-379 | importing a note exactly as read changes nothing |
| BackupService.ReimportStoredNotes | src/utils/backupService.ts:318-381 | importing notes that are all stored as listed changes nothing |
| BackupService.ReimportStoredLocations | src/utils/backupService.ts:384-406 | importing stored location records changes nothing |
| BackupService.ExportThenImport | src/utils/backupService.ts:247-419 | importing the document export just wrote succeeds and leaves the store unchanged |
| BackupService.ClearAll | src/utils/backupService.ts:139-144 | the four deletes empty every table and keep the counters |
| BackupService.RestoreNoteRow | src/utils/backupService.ts:148-169 | the restore insert adds the row under its id, or is skipped when the id is taken |
| BackupService.RestoreNoteTags | src/utils/backupService.ts:171-203 | the note ends up tagged with its previous names plus the names it lists |
| BackupService.RestoreNote | src/utils/backupService.ts:147-204 | one note of the restore loop: its row is added under its id and its listed tag names are attached |
| BackupService.RestoreNotes | src/utils/backupService.ts:147-205 | the restore loop never modifies a row already present and leaves locations alone |
| BackupService.RestoreNotesIds | src/utils/backupService.ts:147-205 | every note id of the backup is stored after the loop |
| BackupService.RestoreNotesRows | src/utils/backupService.ts:147-205 | every row the loop adds holds one backup note's values |
| BackupService.RestoreNotesTagNames | src/utils/backupService.ts:171-203 | every tag name the loop adds is listed by some backup note |
| BackupService.RestoreLocation | src/utils/backupService.ts:206-222 | one record of the restore loop: inserted under its id; existing records are kept |
| BackupService.RestoreLocations | src/utils/backupService.ts:206-222 | the location loop keeps existing records and touches no note or tag |
| BackupService.RestoreLocationsIds | src/utils/backupService.ts:206-222 | every record id of the backup is stored after the loop |
| BackupService.RestoreLocationsRows | src/utils/backupService.ts:206-222 | every record the loop adds holds one backup record's values |
| BackupService.Given | src/utils/backupService.ts:131 | a backup field passes the truthiness test: present, whether or not it is an array |
| BackupService.RestoreFromBackup | src/utils/backupService.ts:124-240 | a document lacking notes, locations or app settings is refused with the store unchanged; success is reported exactly when both lists are arrays and the settings are present; without the tables nothing changes; the store stays well-formed |
| BackupService.RestoreFromBackupContents | src/utils/backupService.ts:124-240 | after a restore every backup note id and record id is stored, and every row, tag name and record comes from the backup |
| BackupService.RestoreRefusesExport | src/utils/backupService.ts:131-133 | an export file has no app-settings part, so restoring from it is refused |
| BackupService.RestoreStoredNote | src/utils/backupService.ts:147-204 | restoring one listed note into a store without its id copies it exactly |
| BackupService.RestoreStoredNotes | src/utils/backupService.ts:147-205 | restoring stored notes with distinct, untaken ids keeps every copied note an exact copy, with the same tag names |
| BackupService.RestoreNotesKeys | src/utils/backupService.ts:147-205 | when every backup note has an id, the stored ids after the loop are the old ones plus the backup's |
| BackupService.IdsOf | src/utils/backupService.ts:147-205 | the ids the backup notes carry |
| BackupService.IdsOfIndex | src/utils/backupService.ts:147-205 | an id is in that set exactly when some backup note carries it |
| BackupService.ListedKeys | src/utils/backupService.ts:147-205 | a one-per-id listing of every stored note names exactly the stored ids |
| BackupService.RestoreStoredLocation | src/utils/backupService.ts:206-222 | restoring one stored record into a store without its id copies it |
| BackupService.RestoreStoredLocations | src/utils/backupService.ts:206-222 | restoring stored records with distinct ids copies them, and the stored ids are the old ones plus theirs |
| BackupService.ListedNotes | src/database/noteRepository.ts:177-212 | the listing that goes into a backup names every stored note once, by id |
| BackupService.ListedLocations | src/database/locationRepository.ts:39-89 | the unbounded history names every stored record once, by id |
| BackupService.StoredListingIds | src/utils/backupService.ts:147-205 | a list holding exactly the stored notes has ids on every note, one note per id, and covers every stored id |
| BackupService.StoredRecordIds | src/utils/backupService.ts:206-222 | a list holding exactly the stored records has ids on every record, one record per id, and covers every stored id |
| BackupService.RestoreSteps | src/utils/backupService.ts:138-222 | a well-formed restore is the clear, then the note loop, then the location loop |
| BackupService.RestoreListedNotes | src/utils/backupService.ts:138-205 | restoring a listing of every note into the cleared store gives the same notes and tag names |
| BackupService.RestoreListingCopies | src/utils/backupService.ts:147-205 | the note loop run on an empty note table over a listing of every stored note, one per id, reproduces the notes and their tag names |
| BackupService.CopiedEverything | src/utils/backupService.ts:147-205 | a store holding a copy of every note, and no other, has the same note rows and tag names |
| BackupService.RestoreListedLocations | src/utils/backupService.ts:206-222 | restoring a listing of every record into an empty log gives the same log |
| BackupService.BackupThenRestore | src/utils/backupService.ts:124-240 | restoring a backup of the listed notes and history succeeds and gives back the same notes, tag names and location log |
| BackupService.RestoreListings | src/utils/backupService.ts:124-240 | restoring any listing of every stored note and record, one per id, succeeds and gives back the same notes, tag names and log |
| AppContext.RefreshNotes | src/context/AppContext.tsx:120-133 | the shown notes become every stored note, newest first, and the favourites are exactly the starred ones among them; a failure keeps the lists |
| AppContext.RefreshLocationHistory | src/context/AppContext.tsx:136-143 | the shown history becomes every stored record, latest first; a failure keeps it |
| AppContext.FavoritesAreStarred | src/context/AppContext.tsx:120-133 | after a refresh a note is a favourite exactly when it is listed and starred |
| SearchScreen.TaggedIsSearchable | src/screens/SearchScreen.tsx:63-69 | a note carrying a selected tag is always in the empty-query search |
| SearchScreen.HasAllTags | src/screens/SearchScreen.tsx:61-67 | `note.tags && selectedTags.every(...)`: the note has a tag array (an empty one is truthy) holding every selected tag |
| SearchScreen.HasTags | src/screens/SearchScreen.tsx:60-68 | the callback passed to `filter` in both tag branches |
| SearchScreen.TagFilterOfEmptySearch | src/screens/SearchScreen.tsx:63-69 | filtering the empty-query search by a tag selection filters every note |
| SearchScreen.PerformSearch | src/screens/SearchScreen.tsx:40-77 | blank query and no tags show nothing; a query alone shows its matches; tags narrow the query's matches, or all notes when the query matched nothing; a failure keeps the shown list |
| SearchScreen.UnmatchedQueryIsIgnored | src/screens/SearchScreen.tsx:52-69 | with tags selected, a query that matches nothing shows what a blank query would |
| SearchScreen.TagsNarrowQueryResults | src/screens/SearchScreen.tsx:52-62 | with tags selected and a query with results, the results are the query's matches carrying every tag, in their order |
| SearchScreen.ToggleTag | src/screens/SearchScreen.tsx:89-95 | membership flips for the tag and for no other; removal deletes it, adding appends it |
| SearchScreen.ToggleTagDistinct | src/screens/SearchScreen.tsx:89-95 | toggling keeps the selection free of duplicates |
| SearchScreen.ToggleTagTwice | src/screens/SearchScreen.tsx:89-95 | toggling twice restores an unselected tag's selection exactly, and otherwise the same tags |
| SearchScreen.FlipFavorite | src/screens/SearchScreen.tsx:113-115 | every shown copy of the note has its flag negated; every other entry is unchanged |
| SearchScreen.FlipFavoriteTwice | src/screens/SearchScreen.tsx:113-115 | patching twice restores the list |
| SearchScreen.ToggleFavorite | src/screens/SearchScreen.tsx:103-119 | a failed write changes nothing; a successful one stores the negated flag and patches the list |
| SearchScreen.ToggleFavoriteShowsStored | src/screens/SearchScreen.tsx:103-119 | after a successful toggle the shown copy displays the flag now stored |
| HomeScreen.FilterNotes | src/screens/HomeScreen.tsx:80-89 | an empty query shows all notes; otherwise exactly the notes whose title, content or a tag contains it, ignoring case, in list order |
| HomeScreen.TitleHit | src/screens/HomeScreen.tsx:83 | the title is set and contains the query, ignoring case |
| HomeScreen.TagHit | src/screens/HomeScreen.tsx:85-87 | some tag contains the query, ignoring case |
| HomeScreen.HomeMatches | src/screens/HomeScreen.tsx:82-87 | the filter's test with a NULL content read as no match; the place name is not searched |
| HomeScreen.FilterNotesSorted | src/screens/HomeScreen.tsx:80-89 | filtering keeps the newest-first order |
| HomeScreen.FilterIgnoresLocation | src/screens/HomeScreen.tsx:80-89 | unlike search, the place name never decides whether a note is shown |
| HomeScreen.FilterWithinSearch | src/screens/HomeScreen.tsx:80-89 | every note the home filter shows is also found by the repository search, in the same order |
| HomeScreen.KeepAsWritten | src/screens/HomeScreen.tsx:82-87 | the filter callback throws exactly when the title misses and the content is NULL |
| HomeScreen.FilterOrThrow | src/screens/HomeScreen.tsx:80-89 | the filter throws exactly when some note makes the callback throw; otherwise it is the intended filter |
| HomeScreen.FilterNotesAsWritten | src/screens/HomeScreen.tsx:80-89 | as written, a non-empty query throws exactly when some note misses on title and has NULL content |
| HomeScreen.AsWrittenAgrees | src/screens/HomeScreen.tsx:80-89 | whenever the as-written filter returns, it returns the corrected result; with no NULL content it always returns |
| HomeScreen.NullContentThrows | src/screens/HomeScreen.tsx:84 | a note with NULL content and no title makes the as-written filter throw, while the corrected one hides the note |
| HomeScreen.Subtitle | src/screens/HomeScreen.tsx:171 | "1 note" for one note; otherwise the count followed by " notes" |
| HomeScreen.SubtitleCount | src/screens/HomeScreen.tsx:171 | reading the leading number of the subtitle gives back the count |
| HomeScreen.SubtitleInjective | src/screens/HomeScreen.tsx:171 | different counts give different subtitles |
| HomeScreen.ToggleFavorite | src/screens/HomeScreen.tsx:57-67 | the star only refreshes the lists: the store is not written |
| HomeScreen.ToggleFavoriteChangesNothing | src/screens/HomeScreen.tsx:57-67 | toggling on the home screen leaves the shown flag as stored |
| CreateNoteScreen.AddTag | src/screens/CreateNoteScreen.tsx:98-105 | a non-empty trimmed tag not yet present is appended and the input cleared; otherwise the tags are unchanged |
| CreateNoteScreen.AddTagKeepsTagsClean | src/screens/CreateNoteScreen.tsx:98-105 | tags stay trimmed, non-empty and free of duplicates |
| CreateNoteScreen.RemoveTag | src/screens/CreateNoteScreen.tsx:108-110 | the name is gone; every other tag keeps its count and order |
| CreateNoteScreen.RemoveUndoesAdd | src/screens/CreateNoteScreen.tsx:98-110 | removing a tag just added restores the tag list |
| CreateNoteScreen.AppendRecognized | src/screens/CreateNoteScreen.tsx:125-127 | recognised text replaces empty content, and otherwise follows the content after one newline |
| CreateNoteScreen.JoinSnoc | src/screens/CreateNoteScreen.tsx:125-127 | appending a part extends the newline-joined text by a newline and the part |
| CreateNoteScreen.DictatedLines | src/screens/CreateNoteScreen.tsx:125-127 | the dictated content splits at newlines back into the recognised texts |
| CreateNoteScreen.NoteOf | src/screens/CreateNoteScreen.tsx:140-163 | blank content is refused; otherwise title and content trimmed, "Untitled Note" for a blank title, the default colour left out, stamps `now` |
| CreateNoteScreen.HandleSave | src/screens/CreateNoteScreen.tsx:140-175 | blank content writes nothing; a failed insert reports "Failed to save note" and writes nothing; otherwise exactly one note is added under a new id, which is returned, and existing notes are untouched |
| CreateNoteScreen.SaveThenRead | src/screens/CreateNoteScreen.tsx:140-175 | the saved note reads back with the trimmed title (or "Untitled Note"), the trimmed content, the stamps, the flag and exactly the draft's tags |
| SettingsScreen.ToggleSetting | src/screens/SettingsScreen.tsx:45-52 | only the key changes, to the negation of its truthiness; missing settings stay missing |
| SettingsScreen.ToggleSettingTwice | src/screens/SettingsScreen.tsx:45-52 | toggling a flag twice restores it; a missing key ends as false |
| SettingsScreen.ExportFileName | src/screens/SettingsScreen.tsx:63 | the trimmed input, or `fieldlog_backup` when it is blank; never empty, already trimmed |
| SettingsScreen.ExportFileNameIdempotent | src/screens/SettingsScreen.tsx:63 | choosing the name from a chosen name gives the same name |
| SettingsScreen.HandleExport | src/screens/SettingsScreen.tsx:55-83 | a successful export yields the file and a message naming it, or a shared notice; a failure yields the failure message |
| SettingsScreen.ExportPathUsesName | src/screens/SettingsScreen.tsx:55-83 | the written path starts with the backups folder and the trimmed name |
| SettingsScreen.HandleImport | src/screens/SettingsScreen.tsx:86-126 | over the corrected import (`BackupService.ImportData`): a cancelled pick changes nothing; a successful import refreshes both lists; a failure reports its error and keeps the lists |
| SettingsScreen.ErrorText | src/screens/SettingsScreen.tsx:118 | the error as string concatenation prints it: the message, or "undefined" when there is none |
| SettingsScreen.HandleImportAsWritten | src/screens/SettingsScreen.tsx:86-126 | the screen over the shipped `importData`: nothing is written, and a file with anything to import is reported as failed with the TypeError's message, the lists kept |
| SettingsScreen.ImportScreenAsWrittenFails | src/screens/SettingsScreen.tsx:109-118 | a file with one titled note: the shipped screen reports the failure, the corrected one reports success |
| SettingsScreen.Truthful | src/screens/SettingsScreen.tsx:45-52 | JavaScript truthiness of a setting value, which `!settings[setting]` negates |
| SettingsScreen.DeleteConfirmed | src/screens/SettingsScreen.tsx:145 | the delete proceeds only on the exact text `DELETE` |
| SettingsScreen.ImportWithoutNotesReported | src/screens/SettingsScreen.tsx:86-126 | a file without a notes array is reported with the import's own error |
| SettingsScreen.ImportShowsStore | src/screens/SettingsScreen.tsx:111-119 | after a successful import the shown lists are exactly the stored notes and records |
| SettingsScreen.HandleDeleteAll | src/screens/SettingsScreen.tsx:144-172 | without the exact word DELETE nothing happens; otherwise no note, relation row or location record remains, tags and counters are kept, and success is reported; a missing schema reports the error |
| SettingsScreen.DeleteAllEmptiesLists | src/screens/SettingsScreen.tsx:144-172 | after a confirmed delete, every shown list is empty |
| VersionBump.ParseBumpKind | scripts/version-bump.js:13-18 | no argument means patch; exactly `major`, `minor` and `patch` are accepted; anything else is the error |
| VersionBump.Bump | scripts/version-bump.js:33-46 | major resets minor and patch; minor resets patch; patch adds one |
| VersionBump.Before | scripts/version-bump.js:33-46 | the order a bump moves forward in: lexicographic on major, minor, patch |
| VersionBump.BumpIncreases | scripts/version-bump.js:33-46 | every bump gives a strictly later version, and a patch bump is the next one within its minor |
| VersionBump.FormatVersion | scripts/version-bump.js:48 | the version line of a well-formed version holds dots between the numbers |
| VersionBump.ParseVersion | scripts/version-bump.js:26 | a version is well formed exactly when its three destructured parts are numbers, which needs at least three dot-separated parts |
| VersionBump.ParseParts | scripts/version-bump.js:26 | the major part is never `undefined`; the minor and patch parts are `undefined` exactly when the text has fewer than two and three parts |
| VersionBump.PartAt | scripts/version-bump.js:26 | `parseInt` of the part: a number when it starts with digits, `NaN` otherwise, `undefined` past the end |
| VersionBump.Inc | scripts/version-bump.js:33-46 | `x += 1` is a number exactly when `x` was one, and then it is one more |
| VersionBump.Show | scripts/version-bump.js:48 | a printed part holds no dot and reads back as the number it was, or as `NaN` |
| VersionBump.Reread | scripts/version-bump.js:26-48 | a written `undefined` reads back as `NaN` |
| VersionBump.BumpParts | scripts/version-bump.js:29-46 | the switch on the destructured parts |
| VersionBump.BumpPartsAgrees | scripts/version-bump.js:29-46 | on numbers the switch is the version bump |
| VersionBump.FormatParts | scripts/version-bump.js:48 | the new version line holds a dot between the parts |
| VersionBump.ParseFormatParts | scripts/version-bump.js:26-48 | the written line has three parts and reads back as the parts, with `undefined` read as `NaN` |
| VersionBump.BumpKeepsNumbers | scripts/version-bump.js:26-48 | a written part is a number exactly when it was one before or the bump set it to 0 |
| VersionBump.WellFormedBump | scripts/version-bump.js:26-48 | on a well-formed version the script writes the bumped version, which reads back as such |
| VersionBump.TwoPartReset | scripts/version-bump.js:26-48 | a version with two parts `a.b` still bumps cleanly by major or minor: the undefined patch is overwritten with 0, so major writes `(a+1).0.0` and minor writes `a.(b+1).0` |
| VersionBump.TwoPartPatch | scripts/version-bump.js:26-48 | a patch bump of `a.b` increments the undefined patch and writes `a.b.NaN` |
| VersionBump.NoDotInNumber | scripts/version-bump.js:48 | a printed number holds no dot |
| VersionBump.ParseFormatVersion | scripts/version-bump.js:26-48 | parsing a printed version gives it back |
| VersionBump.BumpVersionText | scripts/version-bump.js:26-48 | whatever the old text, the new version line has three parts; on a well-formed version it is the bumped version and reads back as it |
| VersionBump.PatchTwice | scripts/version-bump.js:26-48 | two patch bumps add two to the patch number |
| VersionBump.NextIosBuild | scripts/version-bump.js:62-65 | a missing or empty build number becomes "2"; a numeric one goes up by one, read back through `parseInt`; a non-numeric one is written as "NaN" |
| VersionBump.NaNBuildSticks | scripts/version-bump.js:62-65 | once the build number is not a number, every later run writes "NaN" again |
| VersionBump.NextVersionCode | scripts/version-bump.js:67-70 | a missing or zero code becomes 2; otherwise it goes up by one |
| VersionBump.BuildNumbersIncrease | scripts/version-bump.js:62-70 | two runs raise both build numbers by two |
| Text.Trim | src/screens/SettingsScreen.tsx:63 | `trim()`: the text without leading and trailing white space; empty exactly for blank text |
| Text.IsBlank | src/screens/SearchScreen.tsx:41 | `!x.trim()`: every character is white space |
| Text.TrimIdempotent | src/screens/CreateNoteScreen.tsx:152-153 | trimming a trimmed text changes nothing |
| Text.ToLower | src/screens/HomeScreen.tsx:83-86 | `toLowerCase()` character by character, ASCII only |
| Text.Contains | src/screens/HomeScreen.tsx:83-86 | `includes`: the needle occurs at some position |
| Text.ContainsIgnoreCase | src/database/noteRepository.ts:217-224 | `LIKE '%q%'` and `toLowerCase().includes(q)`: the lower-cased needle occurs in the lower-cased text |
| Text.ParseInt | scripts/version-bump.js:26 | `parseInt(text, 10)` on unsigned text: `NaN` exactly when the text does not start with a digit |
| Text.ParseIntOfNat | scripts/version-bump.js:26-48 | reading back a printed number gives the number |
| Text.Split | scripts/version-bump.js:26 | `split('.')`: at least one part |
| Text.SplitJoin | scripts/version-bump.js:26-48 | splitting a join of separator-free parts gives the parts back |
| Text.NatToString | scripts/version-bump.js:48 | a number's decimal digits, without a leading zero |
| Text.LexLe | src/database/noteRepository.ts:412 | the BINARY collation of `ORDER BY name`: compare character by character, a proper prefix first |
| Text.LexLeTotal | src/database/noteRepository.ts:412 | any two names are comparable |
| Text.LexLeTransitive | src/database/noteRepository.ts:412 | the collation is transitive |
| Text.LexLeAntisymmetric | src/database/noteRepository.ts:412 | names that collate both ways are equal: distinct names are strictly ordered |
| Text.LexLeTotalPreorder | src/database/noteRepository.ts:412 | `Collation`, the comparison `ORDER BY name` sorts with, is a total preorder |

## Left out

- File system, sharing, the document picker, AsyncStorage, alerts and navigation: these are I/O. The parsed document, the target directory and the picker's outcome are parameters. `createBackup` (src/utils/backupService.ts:39-86) reads `getAllNotes()` and the unbounded `getLocationHistory()`; that database part of its document is the `BackupDocument` that `BackupService.BackupThenRestore` restores. Its AsyncStorage copy, the `timestamp` and `version` fields and the file write are I/O and are not modelled. `shareBackup` only hands a file to the share sheet, so it is not modelled.
- `Date.now()` and `toISOString()` are parameters. The screen and the repository are given the same `now`.
- LIKE wildcards: a `%` or `_` typed into the query is matched literally, not as a wildcard. Case folding and trimming cover ASCII only.
- Row ids are unbounded naturals. SQLite's 64-bit rowid limit and `insertId` quirks are not modelled. The ids passed to `NoteRepository.GetNoteById`, `NoteRepository.UpdateNote` and `NoteRepository.DeleteNote` are naturals too: the code accepts any number, and a negative id finds no row ("Note not found", or a delete that matches nothing; in `updateNote` a negative id passes the `!note.id` check). Those calls behave as for any absent id and are not modelled.
- Failures part-way through a transaction are not modelled. Each repository call either fails before writing or completes. The only failure modelled is a missing schema.
- Concurrency: interleavings of un-awaited transactions are not modelled. This includes restore's fire-and-forget transactions, so `BackupService.RestoreFromBackup` runs them in order.
- BackupService.RestoreFromBackup: a note without an id produces relation rows with a NULL note id. These rows are invisible to every read and are not modelled. The app-settings part is written to AsyncStorage and is not modelled either.
- BackupService.RestoreFromBackup: `NotArray` stands for a truthy value that `for...of` cannot iterate, such as a number or a plain object, so the loop throws and the restore fails. A JSON string is iterable: the code would loop over its characters and insert one malformed note per character. That case is not modelled.
- BackupService.ImportNotes: the per-note contents are stated by `BackupService.ImportNotesRows` and `BackupService.ImportDataRows` only when the importable notes carry distinct ids. With a repeated id the later note overwrites the earlier one, and a note without an id is inserted under a fresh id; for those cases only the set of ids and the invariant are stated.
- Foreign keys: the model assumes SQLite enforces them. `deleteNote` (src/database/noteRepository.ts:119-125) and `deleteAllNotes` (src/database/noteRepository.ts:433-438) rely on `ON DELETE CASCADE` to remove `note_tags` rows, but the code never issues `PRAGMA foreign_keys = ON`, and SQLite leaves enforcement off by default. The claims that no relation row remains after `NoteRepository.DeleteNote`, `NoteRepository.DeleteAllNotes` and `SettingsScreen.HandleDeleteAll` hold only under that assumption. `Schema.ForeignKeysAssumed` shows the dangling row that is left without it. In that case a later import under the same id would attach the old tags to the new note.
- Order among equal timestamps: SQLite does not promise any order for rows that tie on `ORDER BY timestamp DESC`, least of all after `SELECT DISTINCT`. The model breaks ties by ascending id, as a stable sort of a scan in rowid order. The "same order" claims of `NoteRepository.GetFavoriteNotes`, `NoteRepository.SearchNotes` and `HomeScreen.FilterWithinSearch` rest on that choice.
- BackupService.BackupThenRestore: tags that no note carries are not in the backup, so they are not restored. The lemma states equality of notes, tag names per note and records, not of the tag table.
- NoteRepository.GetAllNotes: the path where reading a note's tags fails (the note is then listed without tags) is not modelled, because in the model that read fails only when the whole call fails.
- SettingsScreen.ToggleSetting: setting values are flags, labels and numbers. NaN and other JavaScript values are not represented.
- VersionBump.ParseVersion: `Text.ParseInt` reads a leading run of decimal digits, as `parseInt(text, 10)` does on unsigned text. A sign and leading blanks are not handled: `parseInt` skips the blanks and reads the sign, but such parts read as `NaN` in the model. (An `0x` prefix needs nothing: with radix 10 it reads as 0 in both.)
- VersionBump.NextIosBuild: the build number is read through `Text.ParseInt`, so a leading sign or blank gives "NaN" where `parseInt` reads past it: for " 5" or "+5" the script writes "6". Only unsigned, blank-free build numbers are modelled exactly.
- VersionBump.PartAt: each version part is read through `Text.ParseInt`, so a part with a sign or a leading blank reads as `NaN` where `parseInt` reads the number, as for `VersionBump.ParseVersion`.
- VersionBump: the file reads and writes and the git commit and tag are I/O and are not modelled.
- AppContext: only `refreshNotes` and `refreshLocationHistory` are modelled, because the import and delete flows call them. The rest is React state wiring and is left out.
- Location tracking, speech recognition and text-to-speech are device services. Only their results enter the model, as parameters.

## Findings

| source | as written | input that shows it | evidently intended | confidence | as-written member | corrected member |
|---|---|---|---|---|---|---|
| src/utils/backupService.ts:9 | `importData` writes through `db`, which `database.ts` does not export; the statements also name columns the schema lacks (lines 336, 339, 362-363), and the INSERT (lines 361-378) leaves out `created_at`, which is NOT NULL without a default (src/database/database.ts:38), so even with `db` defined every insert of a new note would fail. Every write throws, and the error is reported as a failed import. | a backup with one note titled "a" and no id | merge the notes by id, then the location records, and report success | not executed | BackupService.ImportDataAsWritten, BackupService.ImportAsWrittenLosesNotes | BackupService.ImportData |
| src/screens/HomeScreen.tsx:84 | the filter calls `note.content.toLowerCase()` without a NULL check, so a note with NULL content whose title misses the query throws a TypeError | a note with no title and NULL content, query "a" | such a note is simply not shown | not executed | HomeScreen.FilterNotesAsWritten, HomeScreen.NullContentThrows | HomeScreen.FilterNotes |
