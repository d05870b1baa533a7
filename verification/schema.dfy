/** The relational schema of `database.ts` as an abstract state.

    The four tables become maps from row id to row (`notes`, `tags`,
    `location_history`) and a set of `(note_id, tag_id)` pairs (`note_tags`,
    whose primary key makes it a set). Each AUTOINCREMENT table carries its
    `sqlite_sequence` counter: the largest id it has handed out.

    The declared foreign keys (with ON DELETE CASCADE) are modelled as
    enforced; see `ForeignKeysAssumed` for what that assumption buys. */
module Schema {
  import opened Wrappers
  import opened Seqs

  datatype Table = Notes | Tags | NoteTags | LocationHistory

  const AllTables: set<Table> := {Notes, Tags, NoteTags, LocationHistory}

  /** The order of the CREATE TABLE statements of `initDatabase`. */
  const CreateOrder: seq<Table> := [Notes, Tags, NoteTags, LocationHistory]

  /** The order of the DROP TABLE statements of `dropAllTables`. */
  const DropOrder: seq<Table> := [NoteTags, Tags, Notes, LocationHistory]

  /** A row of `notes`. Nullable columns are options; `isFavorite` is the
      stored integer (the schema's INTEGER DEFAULT 0). */
  datatype NoteRow = NoteRow(
    title: Option<string>,
    content: Option<string>,
    timestamp: int,
    latitude: Option<int>,
    longitude: Option<int>,
    locationName: Option<string>,
    color: Option<string>,
    isFavorite: int,
    createdAt: int,
    updatedAt: int)

  /** A row of `location_history`; coordinates are kept as opaque integers. */
  datatype LocationRow = LocationRow(
    latitude: int,
    longitude: int,
    timestamp: int,
    locationName: Option<string>)

  datatype Store = Store(
    tables: set<Table>,
    notes: map<nat, NoteRow>,
    noteSeq: nat,
    tags: map<nat, string>,
    tagSeq: nat,
    noteTags: set<(nat, nat)>,
    locations: map<nat, LocationRow>,
    locationSeq: nat)

  /** The message every statement fails with before the schema exists. */
  const NoSuchTable: string := "no such table"

  /** A database file in which nothing has been created yet. */
  const EmptyStore: Store := Store({}, map[], 0, map[], 0, {}, map[], 0)

  /** All four tables exist, so every repository statement can run. */
  predicate Ready(s: Store) {
    s.tables == AllTables
  }

  // ---------------------------------------------------------------- constraints

  /** `tags.name` is UNIQUE. */
  ghost predicate UniqueTagNames(tags: map<nat, string>) {
    forall a, b :: a in tags && b in tags && tags[a] == tags[b] ==> a == b
  }

  /** Both foreign keys of `note_tags` resolve. */
  ghost predicate RelationsResolve(s: Store) {
    forall p :: p in s.noteTags ==> p.0 in s.notes && p.1 in s.tags
  }

  /** `is_favorite` holds 0 or 1 in every row. */
  ghost predicate FlagsEncoded(notes: map<nat, NoteRow>) {
    forall id :: id in notes ==> notes[id].isFavorite == 0 || notes[id].isFavorite == 1
  }

  /** No row id exceeds its table's AUTOINCREMENT counter. */
  ghost predicate IdsWithinSequences(s: Store) {
    && (forall id :: id in s.notes ==> id <= s.noteSeq)
    && (forall id :: id in s.tags ==> id <= s.tagSeq)
    && (forall id :: id in s.locations ==> id <= s.locationSeq)
  }

  /** `note_tags` only exists together with the two tables it references. */
  predicate DependencyClosed(tables: set<Table>) {
    NoteTags in tables ==> Notes in tables && Tags in tables
  }

  /** A table that does not exist holds no rows. */
  ghost predicate MissingTablesEmpty(s: Store) {
    && (Notes !in s.tables ==> s.notes == map[])
    && (Tags !in s.tables ==> s.tags == map[])
    && (NoteTags !in s.tables ==> s.noteTags == {})
    && (LocationHistory !in s.tables ==> s.locations == map[])
  }

  /** Every constraint the schema declares, plus the counters' meaning. */
  ghost predicate Valid(s: Store) {
    && UniqueTagNames(s.tags)
    && RelationsResolve(s)
    && FlagsEncoded(s.notes)
    && IdsWithinSequences(s)
    && DependencyClosed(s.tables)
    && MissingTablesEmpty(s)
  }

  // ---------------------------------------------------------------- schema transitions

  /** CREATE TABLE IF NOT EXISTS: a no-op when the table exists. */
  function CreateTable(s: Store, t: Table): Store {
    s.(tables := s.tables + {t})
  }

  /** DROP TABLE IF EXISTS: the rows and the table's counter go with it. */
  function DropTable(s: Store, t: Table): Store {
    match t
    case Notes =>
      var r := DeleteNoteRows(s, s.notes.Keys);
      r.(tables := r.tables - {Notes}, noteSeq := 0)
    case Tags =>
      var r := DeleteTagRows(s, s.tags.Keys);
      r.(tables := r.tables - {Tags}, tagSeq := 0)
    case NoteTags => s.(tables := s.tables - {NoteTags}, noteTags := {})
    case LocationHistory => s.(tables := s.tables - {LocationHistory}, locations := map[], locationSeq := 0)
  }

  /** Runs the CREATE statements `ts` in order. */
  function ApplyCreates(s: Store, ts: seq<Table>): (r: Store)
    ensures forall t :: t in r.tables <==> t in s.tables || t in ts
    ensures r.(tables := s.tables) == s
    decreases |ts|
  {
    if ts == [] then s else ApplyCreates(CreateTable(s, ts[0]), ts[1..])
  }

  /** Runs the DROP statements `ts` in order (recursion on the last one, so
      that every prefix of the statement list is an intermediate state). */
  function ApplyDrops(s: Store, ts: seq<Table>): (r: Store)
    ensures forall t :: t in r.tables <==> t in s.tables && t !in ts
    ensures r.noteTags <= s.noteTags && r.notes.Keys <= s.notes.Keys
    ensures r.tags.Keys <= s.tags.Keys && r.locations.Keys <= s.locations.Keys
    ensures NoteTags in ts ==> r.noteTags == {}
    ensures Notes in ts ==> r.notes == map[] && r.noteSeq == 0
    ensures Tags in ts ==> r.tags == map[] && r.tagSeq == 0
    ensures LocationHistory in ts ==> r.locations == map[] && r.locationSeq == 0
    decreases |ts|
  {
    if ts == [] then s
    else
      var init := ts[..|ts| - 1];
      assert forall t :: t in ts <==> t in init || t == ts[|ts| - 1];
      DropTable(ApplyDrops(s, init), ts[|ts| - 1])
  }

  /** Dropping a table keeps the schema valid as long as no remaining table
      references it. */
  lemma DropTableValid(s: Store, t: Table)
    requires Valid(s)
    requires t == Notes || t == Tags ==> NoteTags !in s.tables
    ensures Valid(DropTable(s, t))
  {
  }

  /** `initDatabase`: creates whichever of the four tables are missing and
      leaves every existing row and counter alone. */
  function InitDatabase(s: Store): (r: Store)
    ensures Ready(r)
    ensures r.notes == s.notes && r.tags == s.tags && r.noteTags == s.noteTags && r.locations == s.locations
    ensures r.noteSeq == s.noteSeq && r.tagSeq == s.tagSeq && r.locationSeq == s.locationSeq
    ensures Valid(s) ==> Valid(r)
  {
    var r := ApplyCreates(s, CreateOrder);
    assert forall t :: t in r.tables && t in AllTables by {
      forall t: Table
        ensures t in r.tables && t in AllTables
      {
        InSchemaOrders(t);
      }
    }
    r
  }

  /** Both statement lists name every table. */
  lemma InSchemaOrders(t: Table)
    ensures t in CreateOrder && t in DropOrder && t in AllTables
  {
    match t
    case Notes => assert CreateOrder[0] == t && DropOrder[2] == t;
    case Tags => assert CreateOrder[1] == t && DropOrder[1] == t;
    case NoteTags => assert CreateOrder[2] == t && DropOrder[0] == t;
    case LocationHistory => assert CreateOrder[3] == t && DropOrder[3] == t;
  }

  /** `initDatabase` on an initialised store changes nothing, so running it at
      every start is harmless. */
  lemma InitDatabaseIdempotent(s: Store)
    ensures Ready(s) ==> InitDatabase(s) == s
    ensures InitDatabase(InitDatabase(s)) == InitDatabase(s)
  {
  }

  /** `dropAllTables`: whatever the state, the result is a database with no
      tables, no rows and fresh counters. */
  function DropAllTables(s: Store): (r: Store)
    ensures r == EmptyStore
    ensures Valid(r)
  {
    var r := ApplyDrops(s, DropOrder);
    assert forall t :: t !in r.tables by {
      forall t: Table
        ensures t !in r.tables
      {
        InSchemaOrders(t);
      }
    }
    r
  }

  /** Every intermediate state of `dropAllTables` keeps the schema valid:
      the relation table goes before the two tables it references. */
  lemma DropAllTablesStepsValid(s: Store, k: nat)
    requires Valid(s)
    requires k <= |DropOrder|
    ensures Valid(ApplyDrops(s, DropOrder[..k]))
  {
    if k > 0 {
      DropAllTablesStepsValid(s, k - 1);
      var prefix := DropOrder[..k];
      assert prefix[..k - 1] == DropOrder[..k - 1];
      assert NoteTags in prefix by {
        assert prefix[0] == NoteTags;
      }
      DropTableValid(ApplyDrops(s, DropOrder[..k - 1]), prefix[k - 1]);
    }
  }

  /** Dropping `notes` before `note_tags` would leave the relation table
      referring to a table that no longer exists. */
  lemma DropOrderMatters(s: Store)
    requires Ready(s)
    ensures !DependencyClosed(DropTable(s, Notes).tables)
  {
  }

  // ---------------------------------------------------------------- cascading deletes

  /** DELETE FROM notes WHERE id IN ids, with the declared ON DELETE CASCADE
      removing the deleted notes' relation rows. Tag rows are untouched. */
  function DeleteNoteRows(s: Store, ids: set<nat>): (r: Store)
    ensures r.notes.Keys == s.notes.Keys - ids
    ensures forall id :: id in r.notes ==> r.notes[id] == s.notes[id]
    ensures forall p :: p in r.noteTags <==> p in s.noteTags && p.0 !in ids
    ensures r.tables == s.tables && r.tags == s.tags && r.locations == s.locations
    ensures r.noteSeq == s.noteSeq && r.tagSeq == s.tagSeq && r.locationSeq == s.locationSeq
    ensures Valid(s) ==> Valid(r)
  {
    s.(notes := map id | id in s.notes && id !in ids :: s.notes[id],
       noteTags := set p | p in s.noteTags && p.0 !in ids)
  }

  /** DELETE FROM tags WHERE id IN ids, with the declared ON DELETE CASCADE
      removing the deleted tags' relation rows. Notes are untouched. */
  function DeleteTagRows(s: Store, ids: set<nat>): (r: Store)
    ensures r.tags.Keys == s.tags.Keys - ids
    ensures forall id :: id in r.tags ==> r.tags[id] == s.tags[id]
    ensures forall p :: p in r.noteTags <==> p in s.noteTags && p.1 !in ids
    ensures r.tables == s.tables && r.notes == s.notes && r.locations == s.locations
    ensures r.noteSeq == s.noteSeq && r.tagSeq == s.tagSeq && r.locationSeq == s.locationSeq
    ensures Valid(s) ==> Valid(r)
  {
    s.(tags := map id | id in s.tags && id !in ids :: s.tags[id],
       noteTags := set p | p in s.noteTags && p.1 !in ids)
  }

  /** The code never issues `PRAGMA foreign_keys = ON`, and SQLite leaves
      foreign keys off by default. Without the cascade, deleting a note that
      has a tag leaves a relation row pointing at no note: the relational
      invariant of this model rests on the cascade being enforced. */
  lemma ForeignKeysAssumed(s: Store, id: nat, t: nat)
    requires Valid(s)
    requires (id, t) in s.noteTags
    ensures !RelationsResolve(s.(notes := s.notes - {id}))
  {
    assert (id, t) in s.(notes := s.notes - {id}).noteTags;
  }

  // ---------------------------------------------------------------- scans

  /** The ids in `keys` up to `n`, ascending: the order of a full scan of a
      table, whose rows SQLite stores by rowid. */
  function IdsUpTo(keys: set<nat>, n: nat): (r: seq<nat>)
    ensures forall i :: i in r <==> i in keys && i <= n
    ensures forall i, j :: 0 <= i < j < |r| ==> r[i] < r[j]
    ensures keys == {} ==> r == []
    decreases n
  {
    var prefix := if n == 0 then [] else IdsUpTo(keys, n - 1);
    assert forall i :: 0 <= i < |prefix| ==> prefix[i] in prefix;
    if n in keys then prefix + [n] else prefix
  }

  /** Scanning a sub-table is filtering the scan of the table. */
  lemma {:induction false} IdsUpToSubset(keys: set<nat>, sub: set<nat>, n: nat, p: nat -> bool)
    requires sub <= keys
    requires forall k :: p(k) == (k in sub)
    ensures IdsUpTo(sub, n) == Filter(IdsUpTo(keys, n), p)
  {
    var prefix := if n == 0 then [] else IdsUpTo(keys, n - 1);
    var subPrefix := if n == 0 then [] else IdsUpTo(sub, n - 1);
    if n > 0 {
      IdsUpToSubset(keys, sub, n - 1, p);
    }
    assert subPrefix == Filter(prefix, p);
    if n in keys {
      FilterAppend(prefix, [n], p);
      assert Filter([n], p) == if n in sub then [n] else [];
    }
  }

  /** Ids of all notes, ascending. */
  function NoteIds(s: Store): seq<nat> {
    IdsUpTo(s.notes.Keys, s.noteSeq)
  }

  /** Ids of all tags, ascending. */
  function TagIds(s: Store): seq<nat> {
    IdsUpTo(s.tags.Keys, s.tagSeq)
  }

  /** Ids of all location records, ascending. */
  function LocationIds(s: Store): seq<nat> {
    IdsUpTo(s.locations.Keys, s.locationSeq)
  }
}
