/** The data actions of `SettingsScreen.tsx`: the setting switches, the export
    file name, the import and its refresh, and the guarded delete of all data.
    Pickers, sharing and the snackbar are I/O; the handlers return the
    message the snackbar (or alert) shows. */
module SettingsScreen {
  import opened Wrappers
  import opened Text
  import opened Schema
  import opened NoteRepository
  import opened LocationRepository
  import opened BackupService
  import opened AppContext

  // ---------------------------------------------------------------- switches

  /** A value of the `AppSettings` index signature. */
  datatype SettingValue = Flag(b: bool) | Label(s: string) | Number(n: int)

  /** JavaScript truthiness (NaN is not modelled). */
  predicate Truthful(v: SettingValue) {
    match v
    case Flag(b) => b
    case Label(t) => t != ""
    case Number(n) => n != 0
  }

  /** `handleToggleSetting`: with settings loaded, the key is set to the
      negation of its truthiness (a missing key reads `undefined`, so it
      becomes true) and every other key is kept; without settings nothing
      happens. */
  function ToggleSetting(settings: Option<map<string, SettingValue>>, key: string)
    : (r: Option<map<string, SettingValue>>)
    ensures r.None? <==> settings.None?
    ensures r.Some? ==>
      && r.value.Keys == settings.value.Keys + {key}
      && r.value[key] == Flag(!(key in settings.value && Truthful(settings.value[key])))
      && forall k :: k in settings.value && k != key ==> r.value[k] == settings.value[k]
  {
    match settings
    case None => None
    case Some(m) => Some(m[key := Flag(!(key in m && Truthful(m[key])))])
  }

  /** Toggling a boolean setting twice restores the settings; a setting that
      was missing comes back as false rather than missing. */
  lemma ToggleSettingTwice(m: map<string, SettingValue>, key: string)
    ensures key in m && m[key].Flag? ==> ToggleSetting(ToggleSetting(Some(m), key), key) == Some(m)
    ensures key !in m ==> ToggleSetting(ToggleSetting(Some(m), key), key) == Some(m[key := Flag(false)])
  {
    if key in m && m[key].Flag? {
      assert ToggleSetting(ToggleSetting(Some(m), key), key).value == m;
    } else if key !in m {
      var once := ToggleSetting(Some(m), key).value;
      assert once == m[key := Flag(true)];
      assert ToggleSetting(Some(once), key).value == m[key := Flag(false)];
    }
  }

  // ---------------------------------------------------------------- export

  const DefaultBackupName: string := "fieldlog_backup"
  const ExportedShared: string := "Data exported successfully!"
  const ExportedTo: string := "Data exported to: "
  const ExportFailed: string := "Failed to export data"

  /** The name passed to `exportData`: the trimmed input, or the default when
      that is empty. */
  function ExportFileName(input: string): (r: string)
    ensures r != "" && Trim(r) == r
    ensures !IsBlank(input) ==> r == Trim(input)
    ensures IsBlank(input) ==> r == DefaultBackupName
  {
    var t := Trim(input);
    TrimIdempotent(input);
    if t != "" then t
    else
      assert Trim(DefaultBackupName) == DefaultBackupName by {
        assert SkipSpaces(DefaultBackupName, 0) == 0;
        assert SkipSpacesBack(DefaultBackupName, 0, |DefaultBackupName|) == |DefaultBackupName|;
      }
      DefaultBackupName
  }

  /** Choosing the name again from the chosen name changes nothing. */
  lemma ExportFileNameIdempotent(input: string)
    ensures ExportFileName(ExportFileName(input)) == ExportFileName(input)
  {
  }

  /** `handleExport`: the export, and the message shown. `canShare` is
      whether the platform can share the file. */
  function HandleExport(s: Store, documentDirectory: string, input: string, iso: string, canShare: bool)
    : (r: (Option<ExportDocument>, string))
    requires Valid(s)
    ensures r.0.Some? <==> Ready(s)
    ensures Ready(s) ==>
      r.0.value.notes == GetAllNotes(s).value
      && r.1 == (if canShare then ExportedShared
                 else ExportedTo + ExportPath(documentDirectory, ExportFileName(input), iso))
    ensures !Ready(s) ==> r.1 == ExportFailed
  {
    match ExportData(s, documentDirectory, ExportFileName(input), iso)
    case Err(_) => (None, ExportFailed)
    case Ok((doc, path)) => (Some(doc), if canShare then ExportedShared else ExportedTo + path)
  }

  /** The file is named after the trimmed input, in the backups folder. */
  lemma ExportPathUsesName(s: Store, documentDirectory: string, input: string, iso: string)
    requires Valid(s) && Ready(s) && !IsBlank(input)
    ensures documentDirectory + "backups/" + Trim(input) + "_" <=
      ExportData(s, documentDirectory, ExportFileName(input), iso).value.1
  {
  }

  // ---------------------------------------------------------------- import

  const ImportCanceled: string := "Import canceled"
  const Imported: string := "Data imported successfully!"
  const ImportFailedPrefix: string := "Failed to import data: "

  /** String concatenation of an optional error: `undefined` prints as such. */
  function ErrorText(e: Option<string>): string {
    match e
    case Some(m) => m
    case None => "undefined"
  }

  /** `handleImport`: None is a cancelled picker. A successful import
      refreshes the notes and the history and says so; a failed one reports
      its error and refreshes nothing. */
  function HandleImport(s: Store, picked: Option<BackupDocument>, l: Lists): (r: (Store, Lists, string))
    requires Valid(s)
    ensures Valid(r.0)
    ensures picked.None? ==> r == (s, l, ImportCanceled)
    ensures picked.Some? ==>
      var (s', result) := ImportData(s, picked.value);
      && r.0 == s'
      && (result.success ==>
            r.1 == RefreshLocationHistory(s', RefreshNotes(s', l)) && r.2 == Imported)
      && (!result.success ==>
            r.1 == l && r.2 == ImportFailedPrefix + ErrorText(result.error))
  {
    match picked
    case None => (s, l, ImportCanceled)
    case Some(doc) =>
      var (s', result) := ImportData(s, doc);
      if result.success then (s', RefreshLocationHistory(s', RefreshNotes(s', l)), Imported)
      else (s', l, ImportFailedPrefix + ErrorText(result.error))
  }

  /** `handleImport` over `importData` as shipped: nothing is ever written,
      and any file with something to import is reported as a failure with
      the TypeError's message, the lists left as they were. */
  function HandleImportAsWritten(s: Store, picked: Option<BackupDocument>, l: Lists): (r: (Store, Lists, string))
    requires Valid(s)
    ensures r.0 == s
    ensures picked.None? ==> r == (s, l, ImportCanceled)
    ensures (picked.Some? && picked.value.notes.Items? &&
             WritesSomething(picked.value.notes.items, picked.value.locationHistory)) ==>
      r == (s, l, ImportFailedPrefix + UndefinedDb)
  {
    match picked
    case None => (s, l, ImportCanceled)
    case Some(doc) =>
      var (s', result) := ImportDataAsWritten(s, doc);
      if result.success then (s', RefreshLocationHistory(s', RefreshNotes(s', l)), Imported)
      else (s', l, ImportFailedPrefix + ErrorText(result.error))
  }

  /** A file with a note to import: the shipped screen reports a failure and
      keeps its lists, where the corrected import stores the note and shows
      the success message. */
  lemma ImportScreenAsWrittenFails(s: Store, l: Lists)
    requires Valid(s) && Ready(s)
    ensures
      var note := Note(None, Some("a"), None, 1, None, None, None, None, false, 1, 1, None);
      var doc := BackupDocument(Items([note]), Absent, false);
      && HandleImportAsWritten(s, Some(doc), l) == (s, l, ImportFailedPrefix + UndefinedDb)
      && HandleImport(s, Some(doc), l).2 == Imported
  {
    ImportAsWrittenLosesNotes(s);
  }

  /** A file without a notes array changes nothing and is reported. */
  lemma ImportWithoutNotesReported(s: Store, doc: BackupDocument, l: Lists)
    requires Valid(s) && !doc.notes.Items?
    ensures HandleImport(s, Some(doc), l) == (s, l, ImportFailedPrefix + MissingNotesData)
  {
  }

  /** After a successful import into a ready store the lists shown are the
      store's. */
  lemma ImportShowsStore(s: Store, doc: BackupDocument, l: Lists)
    requires Valid(s) && Ready(s) && doc.notes.Items?
    ensures var (s', l', _) := HandleImport(s, Some(doc), l);
      && (forall n :: n in l'.notes <==> IsStoredNote(s', n))
      && (forall x :: x in l'.history <==> IsStoredLocation(s', x))
  {
  }

  // ---------------------------------------------------------------- delete all

  const ConfirmWord: string := "DELETE"
  const TypeDelete: string := "Please type DELETE to confirm"
  const Deleted: string := "All data deleted successfully"
  const DeleteFailed: string := "Error deleting data"

  /** The delete button is enabled, and the handler proceeds, only on the
      exact text `DELETE`. */
  predicate DeleteConfirmed(text: string) {
    text == ConfirmWord
  }

  /** `handleDeleteAllData`: without the confirmation word nothing happens;
      otherwise every note goes, then every location record, and the lists
      are refreshed. Tag rows and the AUTOINCREMENT counters stay. */
  function HandleDeleteAll(s: Store, confirmText: string, l: Lists): (r: (Store, Lists, string))
    requires Valid(s)
    ensures Valid(r.0)
    ensures !DeleteConfirmed(confirmText) ==> r == (s, l, TypeDelete)
    ensures DeleteConfirmed(confirmText) && !Ready(s) ==> r == (s, l, DeleteFailed)
    ensures DeleteConfirmed(confirmText) && Ready(s) ==>
      && r.0.notes == map[] && r.0.noteTags == {} && r.0.locations == map[]
      && r.0.tags == s.tags && r.0.noteSeq == s.noteSeq && r.0.locationSeq == s.locationSeq
      && r.2 == Deleted
  {
    if !DeleteConfirmed(confirmText) then (s, l, TypeDelete)
    else
      match DeleteAllNotes(s)
      case Err(_) => (s, l, DeleteFailed)
      case Ok(s1) =>
        match ClearLocationHistory(s1)
        case Err(_) => (s1, l, DeleteFailed)
        case Ok(s2) => (s2, RefreshLocationHistory(s2, RefreshNotes(s2, l)), Deleted)
  }

  /** After a confirmed delete the screens show no note, no favourite and no
      location, and every read of the store agrees. */
  lemma DeleteAllEmptiesLists(s: Store, l: Lists)
    requires Valid(s) && Ready(s)
    ensures var (s', l', _) := HandleDeleteAll(s, ConfirmWord, l);
      && l' == Lists([], [], [])
      && GetAllNotes(s') == Ok([])
      && GetLocationHistory(s', None, None) == Ok([])
      && GetLatestLocation(s') == Ok(None)
  {
    var s1 := DeleteAllNotes(s).value;
    DeleteAllThenList(s);
    ClearThenQuery(s1, None, None);
    var s2 := ClearLocationHistory(s1).value;
    assert GetAllNotes(s2) == GetAllNotes(s1);
  }
}
