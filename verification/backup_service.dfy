/** The data logic of `backupService.ts`: the document `exportData` writes
    and its file path, the merge `importData` performs, and the
    clear-and-reinsert of `restoreFromBackup`. Reading, writing and sharing
    files and the AsyncStorage copy are I/O and stay outside the model: the
    functions take the parsed document and return the store and the result. */
module BackupService {
  import opened Wrappers
  import opened Seqs
  import opened Text
  import opened Schema
  import opened NoteRepository
  import opened LocationRepository

  // ---------------------------------------------------------------- documents

  /** A top-level field of a parsed backup file: missing or falsy, a truthy
      value that is not an array, or an array. */
  datatype Field<T> = Absent | NotArray | Items(items: seq<T>)

  /** A parsed backup file, as far as the readers look at it. `asyncStorage`
      records only whether that field is truthy. */
  datatype BackupDocument = BackupDocument(
    notes: Field<Note>,
    locationHistory: Field<LocationRecord>,
    asyncStorage: bool)

  /** The object `exportData` serialises. */
  datatype ExportDocument = ExportDocument(
    notes: seq<Note>,
    locationHistory: seq<LocationRecord>,
    settings: map<string, string>,
    version: string)

  /** The `{success, error}` object `importData` resolves with. */
  datatype ImportResult = ImportResult(success: bool, error: Option<string>)

  const BackupVersion: string := "1.0.0"
  const MissingNotesData: string := "Invalid backup file: missing notes data"
  const RestoreFailed: string := "Failed to restore from backup"
  /** The TypeError a property read on `undefined` raises. */
  const UndefinedDb: string := "Cannot read property 'executeSql' of undefined"

  /** The document an export file parses back to. */
  function AsBackup(e: ExportDocument): BackupDocument {
    BackupDocument(Items(e.notes), Items(e.locationHistory), false)
  }

  // ---------------------------------------------------------------- export

  /** `toISOString().replace(/[:.]/g, '-')`. */
  function FileStamp(iso: string): (r: string)
    ensures |r| == |iso|
    ensures forall i :: 0 <= i < |r| ==> r[i] != ':' && r[i] != '.'
    ensures forall i :: 0 <= i < |r| ==> r[i] == (if iso[i] == ':' || iso[i] == '.' then '-' else iso[i])
  {
    seq(|iso|, i requires 0 <= i < |iso| => if iso[i] == ':' || iso[i] == '.' then '-' else iso[i])
  }

  /** The path `exportData` writes to: the `backups/` folder of the document
      directory, the chosen name, an underscore, the file stamp and `.json`. */
  function ExportPath(documentDirectory: string, fileName: string, iso: string): (path: string)
    ensures documentDirectory + "backups/" + fileName + "_" <= path
    ensures |path| == |documentDirectory| + 9 + |fileName| + |iso| + 5
    ensures path[|path| - 5..] == ".json"
    ensures path[|documentDirectory| + 9 + |fileName|..|path| - 5] == FileStamp(iso)
  {
    var prefix := documentDirectory + "backups/" + fileName + "_";
    var path := prefix + FileStamp(iso) + ".json";
    assert path[|prefix|..|path| - 5] == FileStamp(iso);
    path
  }

  /** `exportData`: the notes as `getAllNotes` lists them, the whole location
      history, empty settings and the version, written to `ExportPath`. The
      store is only read. A failing read is reported with its message. */
  function ExportData(s: Store, documentDirectory: string, fileName: string, iso: string)
    : (r: Result<(ExportDocument, string)>)
    requires Valid(s)
    ensures r.Err? <==> !Ready(s)
    ensures r.Err? ==> r.error == NoSuchTable
    ensures r.Ok? ==>
      var (doc, path) := r.value;
      && (forall n :: n in doc.notes <==> IsStoredNote(s, n))
      && (forall x :: x in doc.locationHistory <==> IsStoredLocation(s, x))
      && doc.notes == GetAllNotes(s).value
      && doc.locationHistory == GetLocationHistory(s, None, None).value
      && doc.settings == map[] && doc.version == BackupVersion
      && path == ExportPath(documentDirectory, fileName, iso)
  {
    if !Ready(s) then Err(NoSuchTable)
    else
      var doc := ExportDocument(GetAllNotes(s).value, GetLocationHistory(s, None, None).value, map[], BackupVersion);
      Ok((doc, ExportPath(documentDirectory, fileName, iso)))
  }

  // ---------------------------------------------------------------- shared writes

  /** JavaScript truthiness of an optional string. */
  predicate Truthy(v: Option<string>) {
    v.Some? && v.value != []
  }

  function Max(a: nat, b: nat): nat {
    if a < b then b else a
  }

  /** INSERT INTO notes with an explicit id `k` that is not taken; the
      AUTOINCREMENT counter moves up to `k` if it was below. */
  function InsertNoteRow(s: Store, k: nat, row: NoteRow): (r: Store)
    requires Valid(s) && Ready(s) && k !in s.notes
    requires row.isFavorite == 0 || row.isFavorite == 1
    ensures Valid(r) && Ready(r)
    ensures r.notes == s.notes[k := row] && r.noteSeq >= s.noteSeq
    ensures r.tags == s.tags && r.tagSeq == s.tagSeq && r.noteTags == s.noteTags
    ensures LocationsKept(s, r)
    ensures forall n :: !Tagged(r, k, n)
  {
    s.(notes := s.notes[k := row], noteSeq := Max(s.noteSeq, k))
  }

  /** The id a note is inserted under: its own, or the next AUTOINCREMENT id. */
  function TargetId(s: Store, note: Note): nat {
    match note.id
    case Some(k) => k
    case None => s.noteSeq + 1
  }

  /** Get-or-create every name, attaching none (the relation row of a note
      inserted without an id has a NULL note id, which no read ever joins). */
  function CreateTags(s: Store, names: seq<string>): (r: Store)
    requires Valid(s)
    ensures Valid(r)
    ensures LocationsKept(s, r) && r.notes == s.notes && r.noteSeq == s.noteSeq && r.noteTags == s.noteTags
    ensures TagsExtended(s, r)
    ensures forall n :: n in r.tags.Values ==> n in s.tags.Values || n in names
    decreases |names|
  {
    if names == [] then s
    else
      match SaveTag(s, names[0])
      case Err(_) => s
      case Ok((s1, _)) => CreateTags(s1, names[1..])
  }

  // ---------------------------------------------------------------- importData

  /** `!note.content && !note.title` fails: the note is imported. */
  predicate Importable(note: Note) {
    Truthy(note.content) || Truthy(note.title)
  }

  /** The row an imported note is written with: on an update `created_at`
      stays, and `updated_at` takes the backup's stamp. An inserted row takes
      the backup's `created_at`, a NOT NULL column without a default that the
      code's INSERT does not name. */
  function ImportedRow(s: Store, k: nat, note: Note): NoteRow {
    RowOf(note.(createdAt := if k in s.notes then s.notes[k].createdAt else note.createdAt))
  }

  /** One note of the import loop: skipped when it has neither title nor
      content, otherwise written under its id (updated in place when the id
      exists, inserted otherwise; a note without an id gets the next id). Its
      tags, when the backup lists them, replace the note's relations. */
  function ImportNote(s: Store, note: Note): (r: Store)
    requires Valid(s) && Ready(s)
    ensures Valid(r) && Ready(r)
    ensures r.locations == s.locations && r.locationSeq == s.locationSeq
    ensures !Importable(note) ==> r == s
    ensures Importable(note) ==>
      var k := TargetId(s, note);
      && r.notes == s.notes[k := ImportedRow(s, k, note)]
      && (note.id.None? ==> k !in s.notes)
      && TagsExtended(s, r) && OtherRelationsKept(s, r, k) && r.noteSeq >= s.noteSeq
      && (note.tags.Some? ==> forall n :: Tagged(r, k, n) <==> n in note.tags.value)
      && (note.tags.None? ==> r.noteTags == s.noteTags && r.tags == s.tags)
  {
    if !Importable(note) then s
    else
      var k := TargetId(s, note);
      var row := ImportedRow(s, k, note);
      var s1 := if k in s.notes then s.(notes := s.notes[k := row]) else InsertNoteRow(s, k, row);
      assert OtherRelationsKept(s, s1, k) && (forall n :: Tagged(s1, k, n) <==> Tagged(s, k, n));
      if note.tags.Some? then
        var s2 := RemoveNoteTagsByNoteId(s1, k).value;
        SaveNoteTags(s2, k, note.tags.value)
      else s1
  }

  /** The ids of the importable notes that carry one. */
  function ImportedIds(notes: seq<Note>): set<nat> {
    if notes == [] then {}
    else
      var n := notes[0];
      (if Importable(n) && n.id.Some? then {n.id.value} else {}) + ImportedIds(notes[1..])
  }

  /** Every importable note has an id. */
  predicate AllImportableHaveIds(notes: seq<Note>) {
    forall i :: 0 <= i < |notes| && Importable(notes[i]) ==> notes[i].id.Some?
  }

  /** The import loop over the notes, in file order. The store stays valid,
      the location log is untouched, and existing notes keep their
      `created_at`. */
  function ImportNotes(s: Store, notes: seq<Note>): (r: Store)
    requires Valid(s) && Ready(s)
    ensures Valid(r) && Ready(r)
    ensures r.locations == s.locations && r.locationSeq == s.locationSeq
    ensures forall k :: k in s.notes ==> k in r.notes && r.notes[k].createdAt == s.notes[k].createdAt
    ensures TagsExtended(s, r)
    decreases |notes|
  {
    if notes == [] then s
    else ImportNotes(ImportNote(s, notes[0]), notes[1..])
  }

  /** After the loop every note id held before and every imported id is
      stored. */
  lemma {:induction false} ImportNotesIds(s: Store, notes: seq<Note>)
    requires Valid(s) && Ready(s)
    ensures s.notes.Keys + ImportedIds(notes) <= ImportNotes(s, notes).notes.Keys
    decreases |notes|
  {
    if notes != [] {
      ImportNotesIds(ImportNote(s, notes[0]), notes[1..]);
    }
  }

  /** When every importable note carries an id, the loop adds no other id:
      the note ids are exactly the old ones plus the imported ones. */
  lemma {:induction false} ImportNotesExactIds(s: Store, notes: seq<Note>)
    requires Valid(s) && Ready(s) && AllImportableHaveIds(notes)
    ensures ImportNotes(s, notes).notes.Keys == s.notes.Keys + ImportedIds(notes)
    decreases |notes|
  {
    if notes != [] {
      forall i | 0 <= i < |notes[1..]| && Importable(notes[1..][i])
        ensures notes[1..][i].id.Some?
      {
        assert notes[1..][i] == notes[i + 1];
      }
      assert Importable(notes[0]) ==> notes[0].id.Some?;
      ImportNotesExactIds(ImportNote(s, notes[0]), notes[1..]);
    }
  }

  /** The loop leaves every note the file does not name as it was. */
  lemma {:induction false} ImportNotesKeepsOthers(s: Store, notes: seq<Note>)
    requires Valid(s) && Ready(s)
    ensures forall k :: k in s.notes && k !in ImportedIds(notes) ==> ImportNotes(s, notes).notes[k] == s.notes[k]
    decreases |notes|
  {
    if notes != [] {
      ImportNotesKeepsOthers(ImportNote(s, notes[0]), notes[1..]);
    }
  }

  /** The importable notes of the file carry pairwise different ids. */
  predicate DistinctImportIds(notes: seq<Note>) {
    forall i, j :: 0 <= i < j < |notes| && Importable(notes[i]) && Importable(notes[j]) && notes[i].id.Some? ==>
      notes[i].id != notes[j].id
  }

  /** After going from `s` to `r`, the note under `note`'s id holds what the
      import writes for it: its values with the `created_at` kept from `s`,
      and its listed tags (or, when it lists none, the tags it had in `s`). */
  ghost predicate ImportedFrom(s: Store, r: Store, note: Note)
    requires note.id.Some?
  {
    var k := note.id.value;
    && k in r.notes && r.notes[k] == ImportedRow(s, k, note)
    && (note.tags.Some? ==> forall n :: Tagged(r, k, n) <==> n in note.tags.value)
    && (note.tags.None? ==> forall n :: Tagged(r, k, n) <==> Tagged(s, k, n))
  }

  /** `k` is imported exactly when an importable note carries it. */
  lemma {:induction false} ImportedIdsIndex(notes: seq<Note>, k: nat)
    ensures k in ImportedIds(notes) <==> exists i :: 0 <= i < |notes| && Importable(notes[i]) && notes[i].id == Some(k)
  {
    if notes != [] {
      ImportedIdsIndex(notes[1..], k);
      if k in ImportedIds(notes[1..]) {
        var i :| 0 <= i < |notes[1..]| && Importable(notes[1..][i]) && notes[1..][i].id == Some(k);
        assert notes[i + 1] == notes[1..][i];
      }
      forall i | 1 <= i < |notes| && Importable(notes[i]) && notes[i].id == Some(k)
        ensures k in ImportedIds(notes[1..])
      {
        assert notes[1..][i - 1] == notes[i];
      }
    }
  }

  /** When every importable note has an id, the loop leaves the tags of a
      note the file does not import as they were. */
  lemma {:induction false} ImportNotesKeepsTagging(s: Store, notes: seq<Note>, k: nat)
    requires Valid(s) && Ready(s) && AllImportableHaveIds(notes) && k !in ImportedIds(notes)
    ensures forall n :: Tagged(ImportNotes(s, notes), k, n) <==> Tagged(s, k, n)
    decreases |notes|
  {
    if notes != [] {
      var s1 := ImportNote(s, notes[0]);
      if Importable(notes[0]) {
        OtherTaggingKept(s, s1, notes[0].id.value);
      }
      forall i | 0 <= i < |notes[1..]| && Importable(notes[1..][i])
        ensures notes[1..][i].id.Some?
      {
        assert notes[1..][i] == notes[i + 1];
      }
      ImportNotesKeepsTagging(s1, notes[1..], k);
    }
  }

  /** Importing one note leaves the row presence, the `created_at` and the
      tags of a note with a different id as they were. */
  lemma ImportNoteKeepsOther(s: Store, note: Note, k: nat)
    requires Valid(s) && Ready(s)
    requires Importable(note) ==> note.id.Some? && note.id.value != k
    ensures var s1 := ImportNote(s, note);
      && (k in s1.notes <==> k in s.notes)
      && (k in s.notes ==> s1.notes[k].createdAt == s.notes[k].createdAt)
      && (forall n :: Tagged(s1, k, n) <==> Tagged(s, k, n))
  {
    if Importable(note) {
      OtherTaggingKept(s, ImportNote(s, note), note.id.value);
    }
  }

  /** When the importable notes carry distinct ids, every one of them ends
      up stored as the import writes it. */
  lemma {:induction false} ImportNotesRows(s: Store, notes: seq<Note>)
    requires Valid(s) && Ready(s) && AllImportableHaveIds(notes) && DistinctImportIds(notes)
    ensures forall i :: 0 <= i < |notes| && Importable(notes[i]) ==> ImportedFrom(s, ImportNotes(s, notes), notes[i])
    decreases |notes|
  {
    if notes != [] {
      var n0 := notes[0];
      var rest := notes[1..];
      var s1 := ImportNote(s, n0);
      var r := ImportNotes(s1, rest);
      assert r == ImportNotes(s, notes);
      assert AllImportableHaveIds(rest) && DistinctImportIds(rest) by {
        forall i | 0 <= i < |rest| ensures rest[i] == notes[i + 1] { }
      }
      ImportNotesRows(s1, rest);
      forall i | 1 <= i < |notes| && Importable(notes[i])
        ensures ImportedFrom(s, r, notes[i])
      {
        assert notes[i] == rest[i - 1];
        ImportNoteKeepsOther(s, n0, notes[i].id.value);
        ImportedFromAcross(s, s1, r, notes[i]);
      }
      if Importable(n0) {
        ImportedHeadKept(s, notes);
      }
    }
  }

  /** The first note of the file, when it is imported, is not overwritten by
      the rest of the loop. */
  lemma ImportedHeadKept(s: Store, notes: seq<Note>)
    requires Valid(s) && Ready(s) && AllImportableHaveIds(notes) && DistinctImportIds(notes)
    requires notes != [] && Importable(notes[0])
    ensures ImportedFrom(s, ImportNotes(s, notes), notes[0])
  {
    var rest := notes[1..];
    var s1 := ImportNote(s, notes[0]);
    var k := notes[0].id.value;
    ImportedIdsIndex(rest, k);
    assert k !in ImportedIds(rest) by {
      forall i | 0 <= i < |rest| && Importable(rest[i])
        ensures rest[i].id != Some(k)
      {
        assert rest[i] == notes[i + 1];
      }
    }
    assert AllImportableHaveIds(rest) by {
      forall i | 0 <= i < |rest| ensures rest[i] == notes[i + 1] { }
    }
    ImportNotesKeepsOthers(s1, rest);
    ImportNotesKeepsTagging(s1, rest, k);
  }

  /** A note imported going from `s1` to `r` was imported going from `s` to
      `r` when `s` and `s1` agree on its row presence, `created_at` and tags. */
  lemma ImportedFromAcross(s: Store, s1: Store, r: Store, x: Note)
    requires x.id.Some?
    requires ImportedFrom(s1, r, x)
    requires x.id.value in s1.notes <==> x.id.value in s.notes
    requires x.id.value in s.notes ==> s1.notes[x.id.value].createdAt == s.notes[x.id.value].createdAt
    requires x.tags.None? ==> forall n :: Tagged(s1, x.id.value, n) <==> Tagged(s, x.id.value, n)
    ensures ImportedFrom(s, r, x)
  {
  }

  /** One record of the location loop: inserted (under its id, or the next
      id when it has none) only when no record has its id. */
  function ImportLocation(s: Store, x: LocationRecord): (r: Store)
    requires Valid(s) && Ready(s)
    ensures Valid(r) && Ready(r)
    ensures r.notes == s.notes && r.noteSeq == s.noteSeq && r.tags == s.tags && r.tagSeq == s.tagSeq
    ensures r.noteTags == s.noteTags
    ensures forall k :: k in s.locations ==> k in r.locations && r.locations[k] == s.locations[k]
    ensures x.id.Some? ==> x.id.value in r.locations
    ensures x.id.Some? && x.id.value in s.locations ==> r == s
    ensures x.id.Some? && x.id.value !in s.locations ==> r.locations == s.locations[x.id.value := LocationRowOf(x)]
  {
    match x.id
    case Some(k) =>
      if k in s.locations then s
      else s.(locations := s.locations[k := LocationRowOf(x)], locationSeq := Max(s.locationSeq, k))
    case None =>
      var k := s.locationSeq + 1;
      s.(locations := s.locations[k := LocationRowOf(x)], locationSeq := k)
  }

  /** The location loop: existing records are never modified, and every
      imported id ends up present. */
  function ImportLocations(s: Store, xs: seq<LocationRecord>): (r: Store)
    requires Valid(s) && Ready(s)
    ensures Valid(r) && Ready(r)
    ensures r.notes == s.notes && r.noteSeq == s.noteSeq && r.tags == s.tags && r.tagSeq == s.tagSeq
    ensures r.noteTags == s.noteTags
    ensures forall k :: k in s.locations ==> k in r.locations && r.locations[k] == s.locations[k]
    ensures forall i :: 0 <= i < |xs| && xs[i].id.Some? ==> xs[i].id.value in r.locations
    decreases |xs|
  {
    if xs == [] then s
    else
      var r := ImportLocations(ImportLocation(s, xs[0]), xs[1..]);
      assert forall i :: 1 <= i < |xs| ==> xs[i] == xs[1..][i - 1];
      r
  }

  /** At least one statement would run: a note to import or a location. */
  predicate WritesSomething(notes: seq<Note>, history: Field<LocationRecord>) {
    || (exists i :: 0 <= i < |notes| && Importable(notes[i]))
    || (history.Items? && history.items != [])
  }

  /** `importData`, as evidently intended: validation, then the note loop,
      then the location loop, on the schema's real columns (the backup's
      `updated_at` where the code names `modified_timestamp`, the tags
      through the tag tables, and the backup's `created_at` in the INSERT,
      which the code leaves out although the column is NOT NULL). Statements
      run one by one, so when the tables are missing the first one fails and
      nothing has been written. */
  function ImportData(s: Store, doc: BackupDocument): (r: (Store, ImportResult))
    requires Valid(s)
    ensures Valid(r.0)
    ensures !doc.notes.Items? ==> r == (s, ImportResult(false, Some(MissingNotesData)))
    ensures doc.notes.Items? && !Ready(s) ==>
      && r.0 == s
      && r.1 == if WritesSomething(doc.notes.items, doc.locationHistory)
                then ImportResult(false, Some(NoSuchTable)) else ImportResult(true, None)
    ensures doc.notes.Items? && Ready(s) ==>
      && r.1 == ImportResult(true, None)
      && s.notes.Keys + ImportedIds(doc.notes.items) <= r.0.notes.Keys
      && (AllImportableHaveIds(doc.notes.items) ==> r.0.notes.Keys == s.notes.Keys + ImportedIds(doc.notes.items))
      && (forall k :: k in s.notes && k !in ImportedIds(doc.notes.items) ==> r.0.notes[k] == s.notes[k])
      && (forall k :: k in s.locations ==> k in r.0.locations && r.0.locations[k] == s.locations[k])
      && (doc.locationHistory.Items? ==>
            forall i :: 0 <= i < |doc.locationHistory.items| && doc.locationHistory.items[i].id.Some? ==>
              doc.locationHistory.items[i].id.value in r.0.locations)
      && (!doc.locationHistory.Items? ==> r.0.locations == s.locations)
  {
    match doc.notes
    case Absent => (s, ImportResult(false, Some(MissingNotesData)))
    case NotArray => (s, ImportResult(false, Some(MissingNotesData)))
    case Items(notes) =>
      if !Ready(s) then
        if WritesSomething(notes, doc.locationHistory) then (s, ImportResult(false, Some(NoSuchTable)))
        else (s, ImportResult(true, None))
      else
        var s1 := ImportNotes(s, notes);
        ImportNotesIds(s, notes);
        ImportNotesKeepsOthers(s, notes);
        assert AllImportableHaveIds(notes) ==> s1.notes.Keys == s.notes.Keys + ImportedIds(notes) by {
          if AllImportableHaveIds(notes) {
            ImportNotesExactIds(s, notes);
          }
        }
        var s2 := if doc.locationHistory.Items? then ImportLocations(s1, doc.locationHistory.items) else s1;
        (s2, ImportResult(true, None))
  }

  /** When the file's importable notes carry distinct ids, the import leaves
      every one of them stored with its values, the stored `created_at`, and
      its listed tags. */
  lemma ImportDataRows(s: Store, notes: seq<Note>, history: Field<LocationRecord>, storage: bool)
    requires Valid(s) && Ready(s) && AllImportableHaveIds(notes) && DistinctImportIds(notes)
    ensures forall i :: 0 <= i < |notes| && Importable(notes[i]) ==>
      ImportedFrom(s, ImportData(s, BackupDocument(Items(notes), history, storage)).0, notes[i])
  {
    ImportNotesRows(s, notes);
    var s1 := ImportNotes(s, notes);
    var r := ImportData(s, BackupDocument(Items(notes), history, storage)).0;
    assert r.notes == s1.notes && r.tags == s1.tags && r.noteTags == s1.noteTags;
    forall i | 0 <= i < |notes| && Importable(notes[i])
      ensures ImportedFrom(s, r, notes[i])
    {
      assert ImportedFrom(s, s1, notes[i]);
    }
  }

  /** `importData` as written: it reads `db`, which `database.ts` does not
      export, so the first statement throws a TypeError; the statements would
      also name the columns `modified_timestamp` and `tags`, which the notes
      table does not have. Nothing is ever written, and the import fails
      whenever there is anything to write. */
  function ImportDataAsWritten(s: Store, doc: BackupDocument): (r: (Store, ImportResult))
    ensures r.0 == s
    ensures r.1.success <==> doc.notes.Items? && !WritesSomething(doc.notes.items, doc.locationHistory)
  {
    match doc.notes
    case Absent => (s, ImportResult(false, Some(MissingNotesData)))
    case NotArray => (s, ImportResult(false, Some(MissingNotesData)))
    case Items(notes) =>
      if WritesSomething(notes, doc.locationHistory) then (s, ImportResult(false, Some(UndefinedDb)))
      else (s, ImportResult(true, None))
  }

  /** A backup holding one titled note without an id: the code as written
      reports a failure and imports nothing, where the intended import stores
      the note under a fresh id. */
  lemma ImportAsWrittenLosesNotes(s: Store)
    requires Valid(s) && Ready(s)
    ensures
      var note := Note(None, Some("a"), None, 1, None, None, None, None, false, 1, 1, None);
      var doc := BackupDocument(Items([note]), Absent, false);
      && ImportDataAsWritten(s, doc) == (s, ImportResult(false, Some(UndefinedDb)))
      && ImportData(s, doc).1 == ImportResult(true, None)
      && ImportData(s, doc).0.notes == s.notes[s.noteSeq + 1 := RowOf(note)]
  {
    var note := Note(None, Some("a"), None, 1, None, None, None, None, false, 1, 1, None);
    assert Importable(note);
    var doc := BackupDocument(Items([note]), Absent, false);
    assert WritesSomething([note], Absent) by {
      assert Importable([note][0]);
    }
    assert [note][1..] == [];
  }

  // ---------------------------------------------------------------- restoreFromBackup

  /** A required top-level field is truthy (an empty array is). */
  predicate Given<T>(f: Field<T>) {
    !f.Absent?
  }

  /** DELETE FROM each of the four tables: every row goes, the AUTOINCREMENT
      counters stay. */
  function ClearAll(s: Store): (r: Store)
    requires Valid(s)
    ensures Valid(r)
    ensures r.notes == map[] && r.tags == map[] && r.noteTags == {} && r.locations == map[]
    ensures r.tables == s.tables && r.noteSeq == s.noteSeq && r.tagSeq == s.tagSeq
    ensures r.locationSeq == s.locationSeq
  {
    s.(notes := map[], tags := map[], noteTags := {}, locations := map[])
  }

  /** One note of the restore loop: the INSERT with the note's id is skipped
      when the id is taken; the tags are get-or-created, and attached to the
      note's id when it has one. */
  function RestoreNote(s: Store, note: Note): (r: Store)
    requires Valid(s) && Ready(s)
    ensures Valid(r) && Ready(r)
    ensures r.locations == s.locations && r.locationSeq == s.locationSeq
    ensures r.notes.Keys == s.notes.Keys + {TargetId(s, note)}
    ensures forall k :: k in s.notes ==> r.notes[k] == s.notes[k]
    ensures TargetId(s, note) !in s.notes ==> r.notes[TargetId(s, note)] == RowOf(note)
    ensures TagsExtended(s, r) && OtherRelationsKept(s, r, TargetId(s, note))
    ensures forall n :: n in r.tags.Values ==> n in s.tags.Values || NamesTag(note, n)
    ensures note.id.Some? ==> forall n :: Tagged(r, note.id.value, n) <==>
      Tagged(s, note.id.value, n) || NamesTag(note, n)
    ensures note.id.None? ==> r.noteTags == s.noteTags
  {
    var k := TargetId(s, note);
    var s1 := RestoreNoteRow(s, k, note);
    RestoreNoteTags(s1, note, k)
  }

  /** The INSERT of the restore loop, skipped when the id is taken. */
  function RestoreNoteRow(s: Store, k: nat, note: Note): (r: Store)
    requires Valid(s) && Ready(s)
    ensures Valid(r) && Ready(r)
    ensures r.locations == s.locations && r.locationSeq == s.locationSeq
    ensures r.notes.Keys == s.notes.Keys + {k}
    ensures forall j :: j in s.notes ==> r.notes[j] == s.notes[j]
    ensures k !in s.notes ==> r.notes[k] == RowOf(note)
    ensures r.tags == s.tags && r.noteTags == s.noteTags && r.noteSeq >= s.noteSeq
  {
    if k in s.notes then s else InsertNoteRow(s, k, RowOf(note))
  }

  /** The tag statements of the restore loop for a note stored under `k`. */
  function RestoreNoteTags(s: Store, note: Note, k: nat): (r: Store)
    requires Valid(s) && Ready(s) && k in s.notes
    ensures Valid(r) && Ready(r)
    ensures r.locations == s.locations && r.locationSeq == s.locationSeq
    ensures r.notes == s.notes
    ensures TagsExtended(s, r) && OtherRelationsKept(s, r, k)
    ensures forall n :: n in r.tags.Values ==> n in s.tags.Values || NamesTag(note, n)
    ensures note.id.Some? ==> forall n :: Tagged(r, k, n) <==> Tagged(s, k, n) || NamesTag(note, n)
    ensures note.id.None? ==> r.noteTags == s.noteTags
  {
    if note.tags.Some? && |note.tags.value| > 0 then
      if note.id.Some? then SaveNoteTags(s, k, note.tags.value)
      else CreateTags(s, note.tags.value)
    else s
  }

  /** The restore loop over the notes, in file order. */
  function RestoreNotes(s: Store, notes: seq<Note>): (r: Store)
    requires Valid(s) && Ready(s)
    ensures Valid(r) && Ready(r)
    ensures r.locations == s.locations && r.locationSeq == s.locationSeq
    ensures forall k :: k in s.notes ==> k in r.notes && r.notes[k] == s.notes[k]
    decreases |notes|
  {
    if notes == [] then s else RestoreNotes(RestoreNote(s, notes[0]), notes[1..])
  }

  /** Every note id of the backup is present after the loop. */
  lemma {:induction false} RestoreNotesIds(s: Store, notes: seq<Note>)
    requires Valid(s) && Ready(s)
    ensures forall i :: 0 <= i < |notes| && notes[i].id.Some? ==> notes[i].id.value in RestoreNotes(s, notes).notes
    decreases |notes|
  {
    if notes != [] {
      var s1 := RestoreNote(s, notes[0]);
      RestoreNotesIds(s1, notes[1..]);
      forall i | 0 <= i < |notes| && notes[i].id.Some?
        ensures notes[i].id.value in RestoreNotes(s, notes).notes
      {
        if i == 0 {
          assert notes[0].id.value in s1.notes;
        } else {
          assert notes[i] == notes[1..][i - 1];
        }
      }
    }
  }

  /** Every row the loop adds holds the values of one of the backup notes. */
  lemma {:induction false} RestoreNotesRows(s: Store, notes: seq<Note>)
    requires Valid(s) && Ready(s)
    ensures var r := RestoreNotes(s, notes);
      forall k :: k in r.notes ==> k in s.notes || exists i :: 0 <= i < |notes| && r.notes[k] == RowOf(notes[i])
    decreases |notes|
  {
    if notes != [] {
      var s1 := RestoreNote(s, notes[0]);
      var r := RestoreNotes(s1, notes[1..]);
      RestoreNotesRows(s1, notes[1..]);
      forall k | k in r.notes && k !in s.notes
        ensures exists i :: 0 <= i < |notes| && r.notes[k] == RowOf(notes[i])
      {
        if k in s1.notes {
          assert r.notes[k] == RowOf(notes[0]);
        } else {
          var i :| 0 <= i < |notes[1..]| && r.notes[k] == RowOf(notes[1..][i]);
          assert r.notes[k] == RowOf(notes[i + 1]);
        }
      }
    }
  }

  /** Every tag name the loop adds is listed by one of the backup notes. */
  lemma {:induction false} RestoreNotesTagNames(s: Store, notes: seq<Note>)
    requires Valid(s) && Ready(s)
    ensures var r := RestoreNotes(s, notes);
      forall n :: n in r.tags.Values ==> n in s.tags.Values || exists i :: 0 <= i < |notes| && NamesTag(notes[i], n)
    decreases |notes|
  {
    if notes != [] {
      var s1 := RestoreNote(s, notes[0]);
      var r := RestoreNotes(s1, notes[1..]);
      RestoreNotesTagNames(s1, notes[1..]);
      forall n | n in r.tags.Values && n !in s.tags.Values
        ensures exists i :: 0 <= i < |notes| && NamesTag(notes[i], n)
      {
        if n in s1.tags.Values {
          assert NamesTag(notes[0], n);
        } else {
          var i :| 0 <= i < |notes[1..]| && NamesTag(notes[1..][i], n);
          assert NamesTag(notes[i + 1], n);
        }
      }
    }
  }

  /** The backup note lists the tag name `n`. */
  predicate NamesTag(note: Note, n: string) {
    note.tags.Some? && n in note.tags.value
  }

  /** One record of the restore loop: the INSERT with the record's id is
      skipped when the id is taken. */
  function RestoreLocation(s: Store, x: LocationRecord): (r: Store)
    requires Valid(s) && Ready(s)
    ensures Valid(r) && Ready(r)
    ensures r.notes == s.notes && r.tags == s.tags && r.noteTags == s.noteTags
    ensures r.noteSeq == s.noteSeq && r.tagSeq == s.tagSeq
    ensures forall k :: k in s.locations ==> k in r.locations && r.locations[k] == s.locations[k]
    ensures forall k :: k in r.locations && k !in s.locations ==> r.locations[k] == LocationRowOf(x)
    ensures x.id.Some? ==> x.id.value in r.locations
  {
    ImportLocation(s, x)
  }

  /** The restore loop over the location records. */
  function RestoreLocations(s: Store, xs: seq<LocationRecord>): (r: Store)
    requires Valid(s) && Ready(s)
    ensures Valid(r) && Ready(r)
    ensures r.notes == s.notes && r.tags == s.tags && r.noteTags == s.noteTags
    ensures forall k :: k in s.locations ==> k in r.locations && r.locations[k] == s.locations[k]
    decreases |xs|
  {
    if xs == [] then s else RestoreLocations(RestoreLocation(s, xs[0]), xs[1..])
  }

  /** Every record id of the backup is present after the loop. */
  lemma {:induction false} RestoreLocationsIds(s: Store, xs: seq<LocationRecord>)
    requires Valid(s) && Ready(s)
    ensures forall i :: 0 <= i < |xs| && xs[i].id.Some? ==> xs[i].id.value in RestoreLocations(s, xs).locations
    decreases |xs|
  {
    if xs != [] {
      var s1 := RestoreLocation(s, xs[0]);
      RestoreLocationsIds(s1, xs[1..]);
      forall i | 0 <= i < |xs| && xs[i].id.Some?
        ensures xs[i].id.value in RestoreLocations(s, xs).locations
      {
        if i > 0 {
          assert xs[i] == xs[1..][i - 1];
        }
      }
    }
  }

  /** Every record the loop adds holds the values of one of the backup records. */
  lemma {:induction false} RestoreLocationsRows(s: Store, xs: seq<LocationRecord>)
    requires Valid(s) && Ready(s)
    ensures var r := RestoreLocations(s, xs);
      forall k :: k in r.locations ==> k in s.locations || exists i :: 0 <= i < |xs| && r.locations[k] == LocationRowOf(xs[i])
    decreases |xs|
  {
    if xs != [] {
      var s1 := RestoreLocation(s, xs[0]);
      var r := RestoreLocations(s1, xs[1..]);
      RestoreLocationsRows(s1, xs[1..]);
      forall k | k in r.locations && k !in s.locations
        ensures exists i :: 0 <= i < |xs| && r.locations[k] == LocationRowOf(xs[i])
      {
        if k in s1.locations {
          assert r.locations[k] == LocationRowOf(xs[0]);
        } else {
          var i :| 0 <= i < |xs[1..]| && r.locations[k] == LocationRowOf(xs[1..][i]);
          assert r.locations[k] == LocationRowOf(xs[i + 1]);
        }
      }
    }
  }


  /** `restoreFromBackup`. A document lacking `notes`, `locationHistory` or
      `asyncStorage` is refused before anything is written. Otherwise the four
      tables are emptied and the notes, their tags and the location records
      are inserted again; a field that is not an array makes the loop throw
      after the tables were emptied. The statements' own failures are never
      observed (their transactions have no error callback), so without the
      tables the restore changes nothing, and it reports success exactly when
      both loops can run. */
  function RestoreFromBackup(s: Store, doc: BackupDocument): (r: (Store, Result<()>))
    requires Valid(s)
    ensures Valid(r.0)
    ensures r.1.Err? ==> r.1.error == RestoreFailed
    ensures r.1.Ok? <==> doc.notes.Items? && doc.locationHistory.Items? && doc.asyncStorage
    ensures !Given(doc.notes) || !Given(doc.locationHistory) || !doc.asyncStorage ==>
      r == (s, Err(RestoreFailed))
    ensures !Ready(s) ==> r.0 == s
  {
    if !Given(doc.notes) || !Given(doc.locationHistory) || !doc.asyncStorage then (s, Err(RestoreFailed))
    else if !Ready(s) then
      (s, if doc.notes.Items? && doc.locationHistory.Items? then Ok(()) else Err(RestoreFailed))
    else
      var s0 := ClearAll(s);
      match doc.notes
      case NotArray => (s0, Err(RestoreFailed))
      case Items(notes) =>
        var s1 := RestoreNotes(s0, notes);
        match doc.locationHistory
        case NotArray => (s1, Err(RestoreFailed))
        case Items(xs) => (RestoreLocations(s1, xs), Ok(()))
  }

  /** A well-formed restore on a ready store leaves exactly the backup's
      contents: every note and record id of the file is stored, every stored
      row holds the values of one of the file's notes or records, and every
      tag name is listed by one of its notes. */
  lemma RestoreFromBackupContents(s: Store, notes: seq<Note>, xs: seq<LocationRecord>)
    requires Valid(s) && Ready(s)
    ensures var (s', outcome) := RestoreFromBackup(s, BackupDocument(Items(notes), Items(xs), true));
      && outcome == Ok(())
      && (forall i :: 0 <= i < |notes| && notes[i].id.Some? ==> notes[i].id.value in s'.notes)
      && (forall k :: k in s'.notes ==> exists i :: 0 <= i < |notes| && s'.notes[k] == RowOf(notes[i]))
      && (forall n :: n in s'.tags.Values ==> exists i :: 0 <= i < |notes| && NamesTag(notes[i], n))
      && (forall i :: 0 <= i < |xs| && xs[i].id.Some? ==> xs[i].id.value in s'.locations)
      && (forall k :: k in s'.locations ==> exists i :: 0 <= i < |xs| && s'.locations[k] == LocationRowOf(xs[i]))
  {
    RestoreSteps(s, notes, xs);
    var s0 := ClearAll(s);
    var s1 := RestoreNotes(s0, notes);
    RestoreNotesIds(s0, notes);
    RestoreNotesRows(s0, notes);
    RestoreNotesTagNames(s0, notes);
    RestoreLocationsIds(s1, xs);
    RestoreLocationsRows(s1, xs);
  }

  /** An `exportData` file carries no `asyncStorage`, so restoring from it is
      refused and changes nothing. */
  lemma RestoreRefusesExport(s: Store, e: ExportDocument)
    requires Valid(s)
    ensures RestoreFromBackup(s, AsBackup(e)) == (s, Err(RestoreFailed))
  {
  }

  // ---------------------------------------------------------------- export followed by import

  /** Importing a note exactly as a read returned it changes nothing. */
  lemma ReimportStoredNote(s: Store, n: Note)
    requires Valid(s) && Ready(s) && IsStoredNote(s, n)
    ensures ImportNote(s, n) == s
  {
    if Importable(n) {
      var k := n.id.value;
      assert ImportedRow(s, k, n) == s.notes[k];
      var s1 := s.(notes := s.notes[k := ImportedRow(s, k, n)]);
      assert s1 == s;
      var s2 := RemoveNoteTagsByNoteId(s, k).value;
      var r := SaveNoteTags(s2, k, n.tags.value);
      assert forall x :: x in n.tags.value ==> x in s.tags.Values by {
        forall x | x in n.tags.value
          ensures x in s.tags.Values
        {
          var t :| (k, t) in s.noteTags && t in s.tags && s.tags[t] == x;
        }
      }
      assert forall x :: Tagged(r, k, x) <==> Tagged(s, k, x);
      SameTaggingSameRelations(r, s, k);
    }
  }

  /** Importing notes that are all stored as listed changes nothing. */
  lemma {:induction false} ReimportStoredNotes(s: Store, notes: seq<Note>)
    requires Valid(s) && Ready(s)
    requires forall n :: n in notes ==> IsStoredNote(s, n)
    ensures ImportNotes(s, notes) == s
    decreases |notes|
  {
    if notes != [] {
      ReimportStoredNote(s, notes[0]);
      ReimportStoredNotes(s, notes[1..]);
    }
  }

  /** Importing location records that are all stored changes nothing. */
  lemma {:induction false} ReimportStoredLocations(s: Store, xs: seq<LocationRecord>)
    requires Valid(s) && Ready(s)
    requires forall x :: x in xs ==> IsStoredLocation(s, x)
    ensures ImportLocations(s, xs) == s
    decreases |xs|
  {
    if xs != [] {
      assert IsStoredLocation(s, xs[0]);
      assert ImportLocation(s, xs[0]) == s;
      ReimportStoredLocations(s, xs[1..]);
    }
  }

  /** Importing the file `exportData` just wrote succeeds and leaves the store
      exactly as it was: every note is updated in place with its own values
      and tags, and every location record is already present. */
  lemma ExportThenImport(s: Store, documentDirectory: string, fileName: string, iso: string)
    requires Valid(s) && Ready(s)
    ensures var doc := ExportData(s, documentDirectory, fileName, iso).value.0;
      ImportData(s, AsBackup(doc)) == (s, ImportResult(true, None))
  {
    var doc := ExportData(s, documentDirectory, fileName, iso).value.0;
    ImportSteps(s, doc.notes, doc.locationHistory);
    ReimportStoredNotes(s, doc.notes);
    ReimportStoredLocations(s, doc.locationHistory);
  }

  /** On a ready store an import runs the note loop, then the location
      loop, and reports success. */
  lemma ImportSteps(s: Store, notes: seq<Note>, xs: seq<LocationRecord>)
    requires Valid(s) && Ready(s)
    ensures ImportData(s, BackupDocument(Items(notes), Items(xs), false))
      == (ImportLocations(ImportNotes(s, notes), xs), ImportResult(true, None))
  {
  }

  // ---------------------------------------------------------------- backup followed by restore

  /** Every note of `t` is a note of `s` with the same row and tag names. */
  ghost predicate NotesCopied(s: Store, t: Store)
    requires Valid(s)
  {
    forall k :: k in t.notes ==>
      && k in s.notes && t.notes[k] == s.notes[k]
      && forall n :: Tagged(t, k, n) <==> Tagged(s, k, n)
  }

  /** Restoring one note as a read listed it, into a store without its id,
      brings it back with its row and its tag names. */
  lemma RestoreStoredNote(s: Store, t: Store, n: Note)
    requires Valid(s) && Valid(t) && Ready(t)
    requires IsStoredNote(s, n) && n.id.value !in t.notes
    requires NotesCopied(s, t)
    ensures NotesCopied(s, RestoreNote(t, n))
    ensures RestoreNote(t, n).notes.Keys == t.notes.Keys + {n.id.value}
  {
    var k := n.id.value;
    var t1 := RestoreNote(t, n);
    assert TargetId(t, n) == k;
    OtherTaggingKept(t, t1, k);
    forall x
      ensures Tagged(t1, k, x) <==> Tagged(s, k, x)
    {
      assert !Tagged(t, k, x);
      assert NamesTag(n, x) <==> Tagged(s, k, x);
    }
  }

  /** Restoring notes as a read listed them, into a store holding none of
      their ids, brings each back with its row and its tag names. */
  lemma {:induction false} RestoreStoredNotes(s: Store, t: Store, notes: seq<Note>)
    requires Valid(s) && Valid(t) && Ready(t)
    requires forall i :: 0 <= i < |notes| ==> IsStoredNote(s, notes[i])
    requires forall i, j :: 0 <= i < j < |notes| ==> notes[i].id != notes[j].id
    requires forall i :: 0 <= i < |notes| ==> notes[i].id.Some? && notes[i].id.value !in t.notes
    requires NotesCopied(s, t)
    ensures NotesCopied(s, RestoreNotes(t, notes))
    decreases |notes|
  {
    if notes != [] {
      RestoreStoredNote(s, t, notes[0]);
      var t1 := RestoreNote(t, notes[0]);
      var rest := notes[1..];
      forall i | 0 <= i < |rest|
        ensures IsStoredNote(s, rest[i]) && rest[i].id.Some? && rest[i].id.value !in t1.notes
      {
        assert rest[i] == notes[i + 1];
      }
      forall i, j | 0 <= i < j < |rest|
        ensures rest[i].id != rest[j].id
      {
        assert rest[i] == notes[i + 1] && rest[j] == notes[j + 1];
      }
      RestoreStoredNotes(s, t1, rest);
    }
  }

  /** The ids the notes carry. */
  function IdsOf(notes: seq<Note>): set<nat> {
    if notes == [] then {}
    else (if notes[0].id.Some? then {notes[0].id.value} else {}) + IdsOf(notes[1..])
  }

  /** An id is among `IdsOf(notes)` exactly when some note carries it. */
  lemma {:induction false} IdsOfIndex(notes: seq<Note>)
    ensures forall k :: k in IdsOf(notes) <==> exists i :: 0 <= i < |notes| && notes[i].id == Some(k)
  {
    if notes != [] {
      var rest := notes[1..];
      IdsOfIndex(rest);
      forall k | k in IdsOf(notes)
        ensures exists i :: 0 <= i < |notes| && notes[i].id == Some(k)
      {
        if notes[0].id != Some(k) {
          var i :| 0 <= i < |rest| && rest[i].id == Some(k);
          assert notes[i + 1].id == Some(k);
        }
      }
      forall k | exists i :: 0 <= i < |notes| && notes[i].id == Some(k)
        ensures k in IdsOf(notes)
      {
        var i :| 0 <= i < |notes| && notes[i].id == Some(k);
        if i > 0 {
          assert rest[i - 1].id == Some(k);
        }
      }
    }
  }

  /** When every note carries an id, the restore loop adds exactly the ids
      of the backup's notes. */
  lemma {:induction false} RestoreNotesKeys(t: Store, notes: seq<Note>)
    requires Valid(t) && Ready(t)
    requires forall i :: 0 <= i < |notes| ==> notes[i].id.Some?
    ensures RestoreNotes(t, notes).notes.Keys == t.notes.Keys + IdsOf(notes)
    decreases |notes|
  {
    if notes != [] {
      assert TargetId(t, notes[0]) == notes[0].id.value;
      assert forall i :: 0 <= i < |notes[1..]| ==> notes[1..][i] == notes[i + 1];
      RestoreNotesKeys(RestoreNote(t, notes[0]), notes[1..]);
    }
  }

  /** Every location record of `t` is one of `s`. */
  ghost predicate LocationsCopied(s: Store, t: Store) {
    forall k :: k in t.locations ==> k in s.locations && t.locations[k] == s.locations[k]
  }

  /** Restoring one stored location record into a store without its id
      brings it back. */
  lemma RestoreStoredLocation(s: Store, t: Store, x: LocationRecord)
    requires Valid(t) && Ready(t)
    requires IsStoredLocation(s, x) && x.id.value !in t.locations
    requires LocationsCopied(s, t)
    ensures LocationsCopied(s, RestoreLocation(t, x))
    ensures RestoreLocation(t, x).locations.Keys == t.locations.Keys + {x.id.value}
  {
    assert RestoreLocation(t, x).locations == t.locations[x.id.value := LocationRowOf(x)];
  }

  /** Restoring stored location records into a store holding none of their
      ids brings each back. */
  lemma {:induction false} RestoreStoredLocations(s: Store, t: Store, xs: seq<LocationRecord>)
    requires Valid(t) && Ready(t)
    requires forall i :: 0 <= i < |xs| ==> IsStoredLocation(s, xs[i])
    requires forall i, j :: 0 <= i < j < |xs| ==> xs[i].id != xs[j].id
    requires forall i :: 0 <= i < |xs| ==> xs[i].id.Some? && xs[i].id.value !in t.locations
    requires LocationsCopied(s, t)
    ensures LocationsCopied(s, RestoreLocations(t, xs))
    ensures forall k :: k in RestoreLocations(t, xs).locations <==>
      k in t.locations || exists i :: 0 <= i < |xs| && xs[i].id == Some(k)
    decreases |xs|
  {
    if xs != [] {
      var k := xs[0].id.value;
      RestoreStoredLocation(s, t, xs[0]);
      var t1 := RestoreLocation(t, xs[0]);
      assert forall i :: 0 <= i < |xs[1..]| ==> xs[1..][i] == xs[i + 1];
      RestoreStoredLocations(s, t1, xs[1..]);
      var r := RestoreLocations(t1, xs[1..]);
      forall j | j in r.locations
        ensures j in t.locations || exists i :: 0 <= i < |xs| && xs[i].id == Some(j)
      {
        if j !in t1.locations {
          var i :| 0 <= i < |xs[1..]| && xs[1..][i].id == Some(j);
          assert xs[i + 1].id == Some(j);
        }
      }
      forall j | j in t.locations || exists i :: 0 <= i < |xs| && xs[i].id == Some(j)
        ensures j in r.locations
      {
        if j !in t.locations && j != k {
          var i :| 0 <= i < |xs| && xs[i].id == Some(j);
          assert xs[1..][i - 1].id == Some(j);
        }
      }
    }
  }

  /** The notes `getAllNotes` lists are the stored notes, each once, under
      distinct ids, and every stored id is listed. */
  lemma ListedNotes(s: Store)
    requires Valid(s) && Ready(s)
    ensures var notes := GetAllNotes(s).value;
      && (forall i :: 0 <= i < |notes| ==> IsStoredNote(s, notes[i]) && notes[i].id.Some?)
      && (forall i, j :: 0 <= i < j < |notes| ==> notes[i].id != notes[j].id)
      && (forall k :: k in s.notes ==> exists i :: 0 <= i < |notes| && notes[i].id == Some(k))
  {
    StoredListingIds(s, GetAllNotes(s).value);
  }

  /** A list holding exactly the stored notes names each stored id, and
      distinct entries carry distinct ids. */
  lemma StoredListingIds(s: Store, notes: seq<Note>)
    requires Valid(s)
    requires forall n :: n in notes <==> IsStoredNote(s, n)
    ensures forall i :: 0 <= i < |notes| ==> IsStoredNote(s, notes[i]) && notes[i].id.Some?
    ensures forall i, j :: 0 <= i < |notes| && 0 <= j < |notes| && notes[i].id == notes[j].id ==> notes[i] == notes[j]
    ensures forall k :: k in s.notes ==> exists i :: 0 <= i < |notes| && notes[i].id == Some(k)
  {
    forall i | 0 <= i < |notes|
      ensures IsStoredNote(s, notes[i]) && notes[i].id.Some?
    {
      assert notes[i] in notes;
    }
    forall k | k in s.notes
      ensures exists i :: 0 <= i < |notes| && notes[i].id == Some(k)
    {
      assert ReadNote(s, k) in notes;
      var i :| 0 <= i < |notes| && notes[i] == ReadNote(s, k);
    }
  }

  /** The records the unbounded history lists are the stored records, each
      once, under distinct ids, and every stored id is listed. */
  lemma ListedLocations(s: Store)
    requires Valid(s) && Ready(s)
    ensures var xs := GetLocationHistory(s, None, None).value;
      && (forall i :: 0 <= i < |xs| ==> IsStoredLocation(s, xs[i]) && xs[i].id.Some?)
      && (forall i, j :: 0 <= i < j < |xs| ==> xs[i].id != xs[j].id)
      && (forall k :: k in s.locations ==> exists i :: 0 <= i < |xs| && xs[i].id == Some(k))
  {
    StoredRecordIds(s, GetLocationHistory(s, None, None).value);
  }

  /** A list holding exactly the stored records names each stored id, and
      distinct entries carry distinct ids. */
  lemma StoredRecordIds(s: Store, xs: seq<LocationRecord>)
    requires forall x :: x in xs <==> IsStoredLocation(s, x)
    ensures forall i :: 0 <= i < |xs| ==> IsStoredLocation(s, xs[i]) && xs[i].id.Some?
    ensures forall i, j :: 0 <= i < |xs| && 0 <= j < |xs| && xs[i].id == xs[j].id ==> xs[i] == xs[j]
    ensures forall k :: k in s.locations ==> exists i :: 0 <= i < |xs| && xs[i].id == Some(k)
  {
    forall i | 0 <= i < |xs|
      ensures IsStoredLocation(s, xs[i]) && xs[i].id.Some?
    {
      assert xs[i] in xs;
    }
    forall k | k in s.locations
      ensures exists i :: 0 <= i < |xs| && xs[i].id == Some(k)
    {
      assert ReadLocation(s, k) in xs;
      var i :| 0 <= i < |xs| && xs[i] == ReadLocation(s, k);
    }
  }

  /** A well-formed backup on a ready store clears it and runs the two
      restore loops. */
  lemma RestoreSteps(s: Store, notes: seq<Note>, xs: seq<LocationRecord>)
    requires Valid(s) && Ready(s)
    ensures RestoreFromBackup(s, BackupDocument(Items(notes), Items(xs), true))
      == (RestoreLocations(RestoreNotes(ClearAll(s), notes), xs), Ok(()))
  {
  }

  /** Restoring, into a cleared store, notes that list every stored note once
      gives back the notes and their tag names. */
  lemma RestoreListedNotes(s: Store, notes: seq<Note>)
    requires Valid(s) && Ready(s)
    requires forall i :: 0 <= i < |notes| ==> IsStoredNote(s, notes[i]) && notes[i].id.Some?
    requires forall i, j :: 0 <= i < j < |notes| ==> notes[i].id != notes[j].id
    requires forall k :: k in s.notes ==> exists i :: 0 <= i < |notes| && notes[i].id == Some(k)
    ensures var r := RestoreNotes(ClearAll(s), notes);
      && r.notes == s.notes
      && forall k, n :: Tagged(r, k, n) <==> Tagged(s, k, n)
  {
    RestoreListingCopies(s, ClearAll(s), notes);
  }

  /** Restoring a listing of every note of `s` into a store without notes
      gives back the notes of `s` and their tag names. */
  lemma RestoreListingCopies(s: Store, t: Store, notes: seq<Note>)
    requires Valid(s) && Valid(t) && Ready(t) && t.notes == map[]
    requires forall i :: 0 <= i < |notes| ==> IsStoredNote(s, notes[i]) && notes[i].id.Some?
    requires forall i, j :: 0 <= i < j < |notes| ==> notes[i].id != notes[j].id
    requires forall k :: k in s.notes ==> exists i :: 0 <= i < |notes| && notes[i].id == Some(k)
    ensures var r := RestoreNotes(t, notes);
      && r.notes == s.notes
      && forall k, n :: Tagged(r, k, n) <==> Tagged(s, k, n)
  {
    RestoreStoredNotes(s, t, notes);
    RestoreNotesKeys(t, notes);
    IdsOfIndex(notes);
    ListedKeys(s, RestoreNotes(t, notes), notes);
    CopiedEverything(s, RestoreNotes(t, notes));
  }

  /** A store holding exactly the ids a listing names, when the listing
      names exactly the notes of `s`, holds the ids of `s`. */
  lemma ListedKeys(s: Store, r: Store, notes: seq<Note>)
    requires forall i :: 0 <= i < |notes| ==> notes[i].id.Some? && notes[i].id.value in s.notes
    requires forall k :: k in s.notes ==> exists i :: 0 <= i < |notes| && notes[i].id == Some(k)
    requires forall k :: k in r.notes <==> exists i :: 0 <= i < |notes| && notes[i].id == Some(k)
    ensures r.notes.Keys == s.notes.Keys
  {
  }

  /** A store whose notes are a copy of every note of `s` has the notes and
      the tagging of `s`. */
  lemma CopiedEverything(s: Store, r: Store)
    requires Valid(s) && Valid(r)
    requires NotesCopied(s, r) && r.notes.Keys == s.notes.Keys
    ensures r.notes == s.notes
    ensures forall k, n :: Tagged(r, k, n) <==> Tagged(s, k, n)
  {
    forall k, n
      ensures Tagged(r, k, n) <==> Tagged(s, k, n)
    {
      if k !in s.notes {
        assert !Tagged(r, k, n) && !Tagged(s, k, n);
      }
    }
  }

  /** Restoring, into a store without records, records that list every
      stored record of `s` once gives back the records of `s`. */
  lemma RestoreListedLocations(s: Store, t: Store, xs: seq<LocationRecord>)
    requires Valid(t) && Ready(t) && t.locations == map[]
    requires forall i :: 0 <= i < |xs| ==> IsStoredLocation(s, xs[i]) && xs[i].id.Some?
    requires forall i, j :: 0 <= i < j < |xs| ==> xs[i].id != xs[j].id
    requires forall k :: k in s.locations ==> exists i :: 0 <= i < |xs| && xs[i].id == Some(k)
    ensures RestoreLocations(t, xs).locations == s.locations
  {
    RestoreStoredLocations(s, t, xs);
  }

  /** A backup holding the notes as `getAllNotes` lists them, the whole
      location history and the AsyncStorage copy restores every note with its
      row and its tag names, and every location record. (Tags no note uses
      are not in the file and do not come back.) */
  lemma BackupThenRestore(s: Store)
    requires Valid(s) && Ready(s)
    ensures
      var doc := BackupDocument(Items(GetAllNotes(s).value), Items(GetLocationHistory(s, None, None).value), true);
      var (r, outcome) := RestoreFromBackup(s, doc);
      && outcome == Ok(())
      && r.notes == s.notes
      && (forall k, n :: Tagged(r, k, n) <==> Tagged(s, k, n))
      && r.locations == s.locations
  {
    ListedNotes(s);
    ListedLocations(s);
    RestoreListings(s, GetAllNotes(s).value, GetLocationHistory(s, None, None).value);
  }

  /** Restoring listings that name every stored note and record once gives
      back the notes, their tag names and the records. */
  lemma RestoreListings(s: Store, notes: seq<Note>, xs: seq<LocationRecord>)
    requires Valid(s) && Ready(s)
    requires forall i :: 0 <= i < |notes| ==> IsStoredNote(s, notes[i]) && notes[i].id.Some?
    requires forall i, j :: 0 <= i < j < |notes| ==> notes[i].id != notes[j].id
    requires forall k :: k in s.notes ==> exists i :: 0 <= i < |notes| && notes[i].id == Some(k)
    requires forall i :: 0 <= i < |xs| ==> IsStoredLocation(s, xs[i]) && xs[i].id.Some?
    requires forall i, j :: 0 <= i < j < |xs| ==> xs[i].id != xs[j].id
    requires forall k :: k in s.locations ==> exists i :: 0 <= i < |xs| && xs[i].id == Some(k)
    ensures var (r, outcome) := RestoreFromBackup(s, BackupDocument(Items(notes), Items(xs), true));
      && outcome == Ok(())
      && r.notes == s.notes
      && (forall k, n :: Tagged(r, k, n) <==> Tagged(s, k, n))
      && r.locations == s.locations
  {
    RestoreSteps(s, notes, xs);
    RestoreListedNotes(s, notes);
    RestoreListedLocations(s, RestoreNotes(ClearAll(s), notes), xs);
  }
}
