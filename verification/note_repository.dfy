/** The note and tag store of `noteRepository.ts`. Every exported function is
    one atomic transition or query over `Schema.Store`: a statement that fails
    leaves the store as it was, and the function's promise rejects with the
    message carried by `Err`. Before `initDatabase` has run, every statement
    fails with "no such table". */
module NoteRepository {
  import opened Wrappers
  import opened Seqs
  import opened Sorting
  import opened Text
  import opened Schema

  /** The `Note` interface. Optional and nullable fields are options; `tags`
      is None when the field is undefined. */
  datatype Note = Note(
    id: Option<nat>,
    title: Option<string>,
    content: Option<string>,
    timestamp: int,
    latitude: Option<int>,
    longitude: Option<int>,
    locationName: Option<string>,
    color: Option<string>,
    isFavorite: bool,
    createdAt: int,
    updatedAt: int,
    tags: Option<seq<string>>)

  const NoteNotFound: string := "Note not found"
  const NoteIdRequired: string := "Note ID is required for update"

  // ---------------------------------------------------------------- encoding

  /** `b ? 1 : 0`, the value written to `is_favorite`. */
  function EncodeFlag(b: bool): int {
    if b then 1 else 0
  }

  /** `!!v`, the boolean a read gives back for a stored `is_favorite`. */
  function DecodeFlag(v: int): bool {
    v != 0
  }

  /** The columns a note is written with, its flag encoded. */
  function RowOf(n: Note): NoteRow {
    NoteRow(n.title, n.content, n.timestamp, n.latitude, n.longitude, n.locationName,
            n.color, EncodeFlag(n.isFavorite), n.createdAt, n.updatedAt)
  }

  /** `x || now` for a numeric field: zero (and undefined) fall back to `now`. */
  function OrNow(x: int, now: int): int {
    if x != 0 then x else now
  }

  // ---------------------------------------------------------------- frame conditions

  /** Every existing tag keeps its id and name. */
  ghost predicate TagsExtended(s: Store, r: Store) {
    forall t :: t in s.tags ==> t in r.tags && r.tags[t] == s.tags[t]
  }

  /** The schema and the location log are untouched. */
  ghost predicate LocationsKept(s: Store, r: Store) {
    r.tables == s.tables && r.locations == s.locations && r.locationSeq == s.locationSeq
  }

  /** The relation rows of every note other than `id` are untouched. */
  ghost predicate OtherRelationsKept(s: Store, r: Store, id: nat) {
    forall p: (nat, nat) :: p.0 != id ==> (p in r.noteTags <==> p in s.noteTags)
  }

  /** Note `id` carries the tag named `name`. */
  ghost predicate Tagged(s: Store, id: nat, name: string) {
    exists t :: (id, t) in s.noteTags && t in s.tags && s.tags[t] == name
  }

  // ---------------------------------------------------------------- tags

  /** `SELECT id FROM tags WHERE name = ?` over the scan `ids`. */
  function ScanForTag(tags: map<nat, string>, ids: seq<nat>, name: string): (r: Option<nat>)
    ensures r.Some? ==> r.value in tags && tags[r.value] == name
    ensures r.None? ==> forall i :: i in ids && i in tags ==> tags[i] != name
  {
    if ids == [] then None
    else if ids[0] in tags && tags[ids[0]] == name then Some(ids[0])
    else ScanForTag(tags, ids[1..], name)
  }

  /** The id of the tag named `name`, if there is one. */
  function FindTag(s: Store, name: string): (r: Option<nat>)
    requires Valid(s)
    ensures r.Some? ==> r.value in s.tags && s.tags[r.value] == name
    ensures r.None? ==> name !in s.tags.Values
  {
    ScanForTag(s.tags, TagIds(s), name)
  }

  /** `saveTag`: INSERT OR IGNORE by the UNIQUE name, then the id of the row
      holding that name. Afterwards exactly one tag has the name. */
  function SaveTag(s: Store, name: string): (r: Result<(Store, nat)>)
    requires Valid(s)
    ensures r.Err? <==> !Ready(s)
    ensures r.Err? ==> r.error == NoSuchTable
    ensures r.Ok? ==>
      var (s', t) := r.value;
      && Valid(s')
      && t in s'.tags && s'.tags[t] == name
      && (forall u :: u in s'.tags && s'.tags[u] == name ==> u == t)
      && s'.tags.Keys == s.tags.Keys + {t}
      && TagsExtended(s, s')
      && (name in s.tags.Values ==> s' == s)
      && LocationsKept(s, s') && s'.notes == s.notes && s'.noteSeq == s.noteSeq
      && s'.noteTags == s.noteTags
  {
    if !Ready(s) then Err(NoSuchTable)
    else
      match FindTag(s, name)
      case Some(t) => Ok((s, t))
      case None =>
        var t := s.tagSeq + 1;
        NewTagValid(s, name);
        Ok((s.(tags := s.tags[t := name], tagSeq := t), t))
  }

  /** Inserting a name no tag has, under the next AUTOINCREMENT id, keeps the
      schema valid and adds exactly one tag. */
  lemma NewTagValid(s: Store, name: string)
    requires Valid(s) && Ready(s) && name !in s.tags.Values
    ensures var t := s.tagSeq + 1;
      var s' := s.(tags := s.tags[t := name], tagSeq := t);
      && t !in s.tags
      && Valid(s')
      && s'.tags.Keys == s.tags.Keys + {t}
      && forall u :: u in s'.tags && s'.tags[u] == name ==> u == t
  {
    var t := s.tagSeq + 1;
    assert t !in s.tags;
  }

  /** One pass of the loop of `saveNoteTags`: get-or-create the tag, then
      INSERT OR IGNORE the relation row (refused by the foreign key when the
      note does not exist). A failing step is logged and skipped. */
  function AttachTag(s: Store, noteId: nat, name: string): (r: Store)
    requires Valid(s)
    ensures Valid(r)
    ensures !Ready(s) ==> r == s
    ensures LocationsKept(s, r) && r.notes == s.notes && r.noteSeq == s.noteSeq
    ensures TagsExtended(s, r)
    ensures Ready(s) ==> name in r.tags.Values
    ensures forall n :: n in r.tags.Values ==> n in s.tags.Values || n == name
    ensures name in s.tags.Values ==> r.tags == s.tags && r.tagSeq == s.tagSeq
    ensures OtherRelationsKept(s, r, noteId) && s.noteTags <= r.noteTags
    ensures noteId !in s.notes ==> r.noteTags == s.noteTags
    ensures Ready(s) && noteId in s.notes ==>
      forall n :: Tagged(r, noteId, n) <==> Tagged(s, noteId, n) || n == name
  {
    match SaveTag(s, name)
    case Err(_) => s
    case Ok((s1, t)) =>
      if noteId in s1.notes then
        var r := s1.(noteTags := s1.noteTags + {(noteId, t)});
        AddRelationTagged(s, s1, noteId, t, name);
        assert (noteId, t) in r.noteTags;
        r
      else s1
  }

  /** Adding the pair `(noteId, t)` tags the note with `t`'s name and with
      nothing else new. */
  lemma AddRelationTagged(s: Store, s1: Store, noteId: nat, t: nat, name: string)
    requires RelationsResolve(s)
    requires TagsExtended(s, s1) && s1.noteTags == s.noteTags
    requires t in s1.tags && s1.tags[t] == name
    ensures forall n :: Tagged(s1.(noteTags := s1.noteTags + {(noteId, t)}), noteId, n) <==>
      Tagged(s, noteId, n) || n == name
  {
    var r := s1.(noteTags := s1.noteTags + {(noteId, t)});
    forall n | Tagged(r, noteId, n)
      ensures Tagged(s, noteId, n) || n == name
    {
      var u :| (noteId, u) in r.noteTags && u in r.tags && r.tags[u] == n;
      if u != t {
        assert (noteId, u) in s.noteTags;
      }
    }
    forall n | Tagged(s, noteId, n)
      ensures Tagged(r, noteId, n)
    {
      var u :| (noteId, u) in s.noteTags && u in s.tags && s.tags[u] == n;
      assert (noteId, u) in r.noteTags && r.tags[u] == n;
    }
    assert (noteId, t) in r.noteTags && r.tags[t] == name;
  }

  /** `saveNoteTags`: attaches every name in order; a name that fails is
      skipped. Relation pairs are a set, so no duplicate pair can arise. */
  function SaveNoteTags(s: Store, noteId: nat, names: seq<string>): (r: Store)
    requires Valid(s)
    ensures Valid(r)
    ensures !Ready(s) ==> r == s
    ensures LocationsKept(s, r) && r.notes == s.notes && r.noteSeq == s.noteSeq
    ensures TagsExtended(s, r)
    ensures Ready(s) ==> forall n :: n in names ==> n in r.tags.Values
    ensures forall n :: n in r.tags.Values ==> n in s.tags.Values || n in names
    ensures (forall n :: n in names ==> n in s.tags.Values) ==> r.tags == s.tags && r.tagSeq == s.tagSeq
    ensures OtherRelationsKept(s, r, noteId) && s.noteTags <= r.noteTags
    ensures noteId !in s.notes ==> r.noteTags == s.noteTags
    ensures Ready(s) && noteId in s.notes ==>
      forall n :: Tagged(r, noteId, n) <==> Tagged(s, noteId, n) || n in names
    decreases |names|
  {
    if names == [] then s
    else
      var s1 := AttachTag(s, noteId, names[0]);
      var r := SaveNoteTags(s1, noteId, names[1..]);
      assert forall n :: n in names <==> n == names[0] || n in names[1..];
      assert Ready(s1) == Ready(s);
      r
  }

  /** The names of the tags with ids in `ids`, in that order. */
  function NamesOf(tags: map<nat, string>, ids: seq<nat>): (r: seq<string>)
    ensures forall n :: n in r <==> exists t :: t in ids && t in tags && tags[t] == n
  {
    if ids == [] then []
    else
      var rest := NamesOf(tags, ids[1..]);
      assert forall t :: t in ids <==> t == ids[0] || t in ids[1..];
      if ids[0] in tags then [tags[ids[0]]] + rest else rest
  }

  /** Distinct ids of uniquely named tags have distinct names. */
  lemma {:induction false} NamesOfDistinct(tags: map<nat, string>, ids: seq<nat>)
    requires UniqueTagNames(tags)
    requires Distinct(ids)
    ensures Distinct(NamesOf(tags, ids))
  {
    if ids != [] {
      NamesOfDistinct(tags, ids[1..]);
      var rest := NamesOf(tags, ids[1..]);
      if ids[0] in tags {
        forall j | 0 <= j < |rest|
          ensures rest[j] != tags[ids[0]]
        {
          assert rest[j] in rest;
          var t :| t in ids[1..] && t in tags && tags[t] == rest[j];
          assert t != ids[0];
        }
      }
    }
  }

  /** An ascending scan has no duplicate ids. */
  lemma IncreasingDistinct(ids: seq<nat>)
    requires forall i, j :: 0 <= i < j < |ids| ==> ids[i] < ids[j]
    ensures Distinct(ids)
  {
  }

  /** `SELECT t.name FROM tags t JOIN note_tags nt ON t.id = nt.tag_id WHERE
      nt.note_id = ?`: the names of the note's tags, in tag-id order. */
  function TagNamesOf(s: Store, noteId: nat): (r: seq<string>)
    requires Valid(s)
    ensures forall n :: n in r <==> Tagged(s, noteId, n)
    ensures Distinct(r)
  {
    var ids := Filter(TagIds(s), (t: nat) => (noteId, t) in s.noteTags);
    IncreasingDistinct(TagIds(s));
    FilterDistinct(TagIds(s), (t: nat) => (noteId, t) in s.noteTags);
    NamesOfDistinct(s.tags, ids);
    var r := NamesOf(s.tags, ids);
    assert forall n :: Tagged(s, noteId, n) ==> n in r by {
      forall n | Tagged(s, noteId, n)
        ensures n in r
      {
        var t :| (noteId, t) in s.noteTags && t in s.tags && s.tags[t] == n;
        assert t in ids;
      }
    }
    r
  }

  /** `getNoteTagsByNoteId`. */
  function GetNoteTagsByNoteId(s: Store, noteId: nat): (r: Result<seq<string>>)
    requires Valid(s)
    ensures r.Err? <==> !Ready(s)
    ensures r.Err? ==> r.error == NoSuchTable
    ensures r.Ok? ==> (forall n :: n in r.value <==> Tagged(s, noteId, n)) && Distinct(r.value)
  {
    if !Ready(s) then Err(NoSuchTable) else Ok(TagNamesOf(s, noteId))
  }

  /** `removeNoteTagsByNoteId`: deletes the note's relation rows and nothing
      else; tag rows stay even when no note uses them any more. */
  function RemoveNoteTagsByNoteId(s: Store, noteId: nat): (r: Result<Store>)
    requires Valid(s)
    ensures r.Err? <==> !Ready(s)
    ensures r.Err? ==> r.error == NoSuchTable
    ensures r.Ok? ==>
      && Valid(r.value)
      && (forall n :: !Tagged(r.value, noteId, n))
      && OtherRelationsKept(s, r.value, noteId)
      && r.value.tags == s.tags && r.value.tagSeq == s.tagSeq
      && r.value.notes == s.notes && r.value.noteSeq == s.noteSeq && LocationsKept(s, r.value)
  {
    if !Ready(s) then Err(NoSuchTable)
    else Ok(s.(noteTags := set p | p in s.noteTags && p.0 != noteId))
  }

  /** `getAllTags`: every tag name once, ordered by name. */
  function GetAllTags(s: Store): (r: Result<seq<string>>)
    requires Valid(s)
    ensures r.Err? <==> !Ready(s)
    ensures r.Err? ==> r.error == NoSuchTable
    ensures r.Ok? ==> forall n :: n in r.value <==> n in s.tags.Values
    ensures r.Ok? ==> SortedBy(r.value, Collation) && Distinct(r.value)
  {
    if !Ready(s) then Err(NoSuchTable)
    else
      var names := NamesOf(s.tags, TagIds(s));
      IncreasingDistinct(TagIds(s));
      NamesOfDistinct(s.tags, TagIds(s));
      LexLeTotalPreorder();
      SortSorted(names, Collation);
      DistinctPermutation(names, Sort(names, Collation));
      Ok(Sort(names, Collation))
  }

  // ---------------------------------------------------------------- reading notes

  /** A row as the reads return it: the flag decoded and the tag names joined. */
  function ReadNote(s: Store, id: nat): (r: Note)
    requires Valid(s) && id in s.notes
    ensures r.id == Some(id)
    ensures RowOf(r) == s.notes[id]
    ensures r.tags.Some? && Distinct(r.tags.value)
    ensures forall n :: n in r.tags.value <==> Tagged(s, id, n)
  {
    var row := s.notes[id];
    Note(Some(id), row.title, row.content, row.timestamp, row.latitude, row.longitude,
         row.locationName, row.color, DecodeFlag(row.isFavorite), row.createdAt, row.updatedAt,
         Some(TagNamesOf(s, id)))
  }

  /** `n` is what a read returns for one of the stored notes. */
  ghost predicate IsStoredNote(s: Store, n: Note)
    requires Valid(s)
  {
    n.id.Some? && n.id.value in s.notes && n == ReadNote(s, n.id.value)
  }

  /** Reads the rows `ids`, in order. */
  function ReadNotes(s: Store, ids: seq<nat>): (r: seq<Note>)
    requires Valid(s)
    requires forall i :: i in ids ==> i in s.notes
    ensures |r| == |ids|
    ensures forall k :: 0 <= k < |ids| ==> r[k] == ReadNote(s, ids[k])
  {
    if ids == [] then [] else [ReadNote(s, ids[0])] + ReadNotes(s, ids[1..])
  }

  /** Every note, in scan (ascending id) order. */
  function ScanNotes(s: Store): (r: seq<Note>)
    requires Valid(s)
    ensures forall n :: n in r <==> IsStoredNote(s, n)
    ensures Distinct(r)
    ensures s.notes == map[] ==> r == []
  {
    var ids := NoteIds(s);
    var r := ReadNotes(s, ids);
    assert forall n :: IsStoredNote(s, n) ==> n in r by {
      forall n | IsStoredNote(s, n)
        ensures n in r
      {
        var k :| 0 <= k < |ids| && ids[k] == n.id.value;
        assert r[k] == n;
      }
    }
    r
  }

  /** A WHERE clause on the rows that agrees with a test on the read notes
      selects the same notes. */
  lemma {:induction false} ReadNotesFilter(s: Store, ids: seq<nat>, rowP: nat -> bool, noteP: Note -> bool)
    requires Valid(s)
    requires forall i :: i in ids ==> i in s.notes
    requires forall id :: id in s.notes ==> rowP(id) == noteP(ReadNote(s, id))
    ensures ReadNotes(s, Filter(ids, rowP)) == Filter(ReadNotes(s, ids), noteP)
  {
    if ids != [] {
      ReadNotesFilter(s, ids[1..], rowP, noteP);
      assert ReadNotes(s, ids)[1..] == ReadNotes(s, ids[1..]);
    }
  }

  /** `ORDER BY timestamp DESC`. */
  const NewestFirst: (Note, Note) -> bool := (a: Note, b: Note) => a.timestamp >= b.timestamp

  lemma NewestFirstTotal()
    ensures TotalPreorder(NewestFirst)
  {
  }

  /** `getAllNotes`: every note once, newest first, each with its tags. */
  function GetAllNotes(s: Store): (r: Result<seq<Note>>)
    requires Valid(s)
    ensures r.Err? <==> !Ready(s)
    ensures r.Err? ==> r.error == NoSuchTable
    ensures r.Ok? ==> forall n :: n in r.value <==> IsStoredNote(s, n)
    ensures r.Ok? ==> SortedBy(r.value, NewestFirst) && Distinct(r.value)
  {
    if !Ready(s) then Err(NoSuchTable)
    else
      var scan := ScanNotes(s);
      NewestFirstTotal();
      SortSorted(scan, NewestFirst);
      DistinctPermutation(scan, Sort(scan, NewestFirst));
      Ok(Sort(scan, NewestFirst))
  }

  /** The favourite test on a read note. */
  function IsFavoriteNote(n: Note): bool {
    n.isFavorite
  }

  /** `getFavoriteNotes` (`WHERE is_favorite = 1 ORDER BY timestamp DESC`):
      exactly the favourites of `getAllNotes`, in the same order. */
  function GetFavoriteNotes(s: Store): (r: Result<seq<Note>>)
    requires Valid(s)
    ensures r.Err? <==> !Ready(s)
    ensures r.Err? ==> r.error == NoSuchTable
    ensures r.Ok? ==> r.value == Filter(GetAllNotes(s).value, IsFavoriteNote)
  {
    if !Ready(s) then Err(NoSuchTable)
    else
      var favourite := (id: nat) => id in s.notes && s.notes[id].isFavorite == 1;
      var ids := Filter(NoteIds(s), favourite);
      ReadNotesFilter(s, NoteIds(s), favourite, IsFavoriteNote);
      NewestFirstTotal();
      FilterSort(ScanNotes(s), NewestFirst, IsFavoriteNote);
      Ok(Sort(ReadNotes(s, ids), NewestFirst))
  }

  // ---------------------------------------------------------------- search

  /** `column LIKE '%q%'`: NULL never matches. */
  predicate Like(v: Option<string>, q: string) {
    v.Some? && ContainsIgnoreCase(v.value, q)
  }

  /** The WHERE clause of `searchNotes` over the LEFT JOIN rows of note `id`:
      the title, content or place name, or the name of one of its tags,
      contains `q`. */
  predicate RowMatches(s: Store, id: nat, q: string)
    requires id in s.notes
  {
    var row := s.notes[id];
    || Like(row.title, q) || Like(row.content, q) || Like(row.locationName, q)
    || exists p :: p in s.noteTags && p.0 == id && p.1 in s.tags && ContainsIgnoreCase(s.tags[p.1], q)
  }

  /** The same test stated on a read note. */
  predicate NoteMatches(n: Note, q: string) {
    || Like(n.title, q) || Like(n.content, q) || Like(n.locationName, q)
    || (n.tags.Some? && exists name :: name in n.tags.value && ContainsIgnoreCase(name, q))
  }

  function MatchesQuery(q: string): Note -> bool {
    (n: Note) => NoteMatches(n, q)
  }

  /** Matching on the joined rows is matching on the read note. */
  lemma RowMatchesRead(s: Store, id: nat, q: string)
    requires Valid(s) && id in s.notes
    ensures RowMatches(s, id, q) == NoteMatches(ReadNote(s, id), q)
  {
    var n := ReadNote(s, id);
    if exists p :: p in s.noteTags && p.0 == id && p.1 in s.tags && ContainsIgnoreCase(s.tags[p.1], q) {
      var p :| p in s.noteTags && p.0 == id && p.1 in s.tags && ContainsIgnoreCase(s.tags[p.1], q);
      assert Tagged(s, id, s.tags[p.1]);
    }
    if n.tags.Some? && exists name :: name in n.tags.value && ContainsIgnoreCase(name, q) {
      var name :| name in n.tags.value && ContainsIgnoreCase(name, q);
      assert Tagged(s, id, name);
      var t :| (id, t) in s.noteTags && t in s.tags && s.tags[t] == name;
      assert (id, t).0 == id && (id, t).1 == t;
    }
  }

  /** `searchNotes(q)`: the distinct notes matching `q`, newest first; that
      is, the matching notes of `getAllNotes` in the same order. */
  function SearchNotes(s: Store, q: string): (r: Result<seq<Note>>)
    requires Valid(s)
    ensures r.Err? <==> !Ready(s)
    ensures r.Err? ==> r.error == NoSuchTable
    ensures r.Ok? ==> r.value == Filter(GetAllNotes(s).value, MatchesQuery(q))
  {
    if !Ready(s) then Err(NoSuchTable)
    else
      var matching := (id: nat) => id in s.notes && RowMatches(s, id, q);
      var ids := Filter(NoteIds(s), matching);
      assert forall id :: id in s.notes ==> matching(id) == MatchesQuery(q)(ReadNote(s, id)) by {
        forall id | id in s.notes
          ensures matching(id) == MatchesQuery(q)(ReadNote(s, id))
        {
          RowMatchesRead(s, id, q);
        }
      }
      ReadNotesFilter(s, NoteIds(s), matching, MatchesQuery(q));
      NewestFirstTotal();
      FilterSort(ScanNotes(s), NewestFirst, MatchesQuery(q));
      Ok(Sort(ReadNotes(s, ids), NewestFirst))
  }

  /** A note has some non-NULL searched field or at least one tag. */
  predicate HasSearchableField(n: Note) {
    n.title.Some? || n.content.Some? || n.locationName.Some? || (n.tags.Some? && n.tags.value != [])
  }

  /** `searchNotes("")` is not `getAllNotes`: it leaves out the notes whose
      title, content and place name are all NULL and that carry no tag. */
  lemma SearchEmptyQuery(s: Store)
    requires Valid(s) && Ready(s)
    ensures SearchNotes(s, "").value == Filter(GetAllNotes(s).value, HasSearchableField)
  {
    forall n: Note
      ensures MatchesQuery("")(n) == HasSearchableField(n)
    {
      if n.title.Some? { ContainsEmpty(n.title.value); }
      if n.content.Some? { ContainsEmpty(n.content.value); }
      if n.locationName.Some? { ContainsEmpty(n.locationName.value); }
      if n.tags.Some? && n.tags.value != [] {
        ContainsEmpty(n.tags.value[0]);
      }
    }
    FilterExt(GetAllNotes(s).value, MatchesQuery(""), HasSearchableField);
  }

  // ---------------------------------------------------------------- writes

  /** The row `saveNote` inserts: a zero stamp becomes `now`. */
  function InsertedNote(note: Note, now: int): Note {
    note.(createdAt := OrNow(note.createdAt, now), updatedAt := OrNow(note.updatedAt, now))
  }

  /** `saveNote`: inserts the note under a fresh AUTOINCREMENT id (any id the
      note carries is ignored) and, when its tag list is non-empty, attaches
      the tags. Returns the store and the new id. */
  function SaveNote(s: Store, note: Note, now: int): (r: Result<(Store, nat)>)
    requires Valid(s)
    ensures r.Err? <==> !Ready(s)
    ensures r.Err? ==> r.error == NoSuchTable
    ensures r.Ok? ==>
      var (s', id) := r.value;
      && Valid(s')
      && id !in s.notes
      && s'.notes == s.notes[id := RowOf(InsertedNote(note, now))]
      && LocationsKept(s, s') && TagsExtended(s, s') && OtherRelationsKept(s, s', id)
      && (note.tags.None? || note.tags.value == [] ==> s'.tags == s.tags && s'.noteTags == s.noteTags)
      && (note.tags.Some? ==> forall n :: Tagged(s', id, n) <==> n in note.tags.value)
  {
    if !Ready(s) then Err(NoSuchTable)
    else
      var id := s.noteSeq + 1;
      var s1 := s.(notes := s.notes[id := RowOf(InsertedNote(note, now))], noteSeq := id);
      assert forall n :: !Tagged(s1, id, n);
      if note.tags.Some? && |note.tags.value| > 0 then
        Ok((SaveNoteTags(s1, id, note.tags.value), id))
      else
        Ok((s1, id))
  }

  /** The row `updateNote` writes over `prior`: every column from the note,
      `created_at` kept, `updated_at` set to `now`. */
  function UpdatedNote(note: Note, prior: NoteRow, now: int): Note {
    note.(createdAt := prior.createdAt, updatedAt := now)
  }

  /** `updateNote`. A missing or zero id is refused before any statement runs;
      an id with no row is "Note not found". When `tags` is defined (even as
      an empty list) the note's relations are replaced; when undefined they
      are kept. */
  function UpdateNote(s: Store, note: Note, now: int): (r: Result<Store>)
    requires Valid(s)
    ensures r.Ok? <==> note.id.Some? && note.id.value != 0 && Ready(s) && note.id.value in s.notes
    ensures note.id.None? || note.id.value == 0 ==> r == Err(NoteIdRequired)
    ensures note.id.Some? && note.id.value != 0 && !Ready(s) ==> r == Err(NoSuchTable)
    ensures note.id.Some? && note.id.value != 0 && Ready(s) && note.id.value !in s.notes ==>
      r == Err(NoteNotFound)
    ensures r.Ok? ==>
      var s' := r.value;
      var id := note.id.value;
      && Valid(s')
      && s'.notes.Keys == s.notes.Keys
      && (forall k :: k in s.notes && k != id ==> s'.notes[k] == s.notes[k])
      && s'.notes[id] == RowOf(UpdatedNote(note, s.notes[id], now))
      && s'.notes[id].updatedAt == now && s'.notes[id].createdAt == s.notes[id].createdAt
      && LocationsKept(s, s') && TagsExtended(s, s') && OtherRelationsKept(s, s', id)
      && (note.tags.None? ==> s'.tags == s.tags && s'.noteTags == s.noteTags)
      && (note.tags.Some? ==> forall n :: Tagged(s', id, n) <==> n in note.tags.value)
  {
    if note.id.None? || note.id.value == 0 then Err(NoteIdRequired)
    else if !Ready(s) then Err(NoSuchTable)
    else if note.id.value !in s.notes then Err(NoteNotFound)
    else
      var id := note.id.value;
      var s1 := s.(notes := s.notes[id := RowOf(UpdatedNote(note, s.notes[id], now))]);
      if note.tags.Some? then
        var s2 := RemoveNoteTagsByNoteId(s1, id).value;
        Ok(SaveNoteTags(s2, id, note.tags.value))
      else
        Ok(s1)
  }

  /** `deleteNote`: the row and, by the cascade, its relation rows go; tag
      rows stay. */
  function DeleteNote(s: Store, id: nat): (r: Result<Store>)
    requires Valid(s)
    ensures r.Ok? <==> Ready(s) && id in s.notes
    ensures !Ready(s) ==> r == Err(NoSuchTable)
    ensures Ready(s) && id !in s.notes ==> r == Err(NoteNotFound)
    ensures r.Ok? ==>
      && Valid(r.value)
      && r.value.notes.Keys == s.notes.Keys - {id}
      && (forall k :: k in r.value.notes ==> r.value.notes[k] == s.notes[k])
      && (forall n :: !Tagged(r.value, id, n))
      && OtherRelationsKept(s, r.value, id)
      && r.value.tags == s.tags && LocationsKept(s, r.value)
  {
    if !Ready(s) then Err(NoSuchTable)
    else if id !in s.notes then Err(NoteNotFound)
    else Ok(DeleteNoteRows(s, {id}))
  }

  /** `getNoteById`: the note with its tag names. */
  function GetNoteById(s: Store, id: nat): (r: Result<Note>)
    requires Valid(s)
    ensures r.Ok? <==> Ready(s) && id in s.notes
    ensures !Ready(s) ==> r == Err(NoSuchTable)
    ensures Ready(s) && id !in s.notes ==> r == Err(NoteNotFound)
    ensures r.Ok? ==> r.value.id == Some(id) && RowOf(r.value) == s.notes[id]
    ensures r.Ok? ==> r.value.tags.Some? && forall n :: n in r.value.tags.value <==> Tagged(s, id, n)
  {
    if !Ready(s) then Err(NoSuchTable)
    else if id !in s.notes then Err(NoteNotFound)
    else Ok(ReadNote(s, id))
  }

  /** `deleteAllNotes`: no note and no relation row is left; tags and the
      location log are untouched. */
  function DeleteAllNotes(s: Store): (r: Result<Store>)
    requires Valid(s)
    ensures r.Err? <==> !Ready(s)
    ensures r.Err? ==> r.error == NoSuchTable
    ensures r.Ok? ==>
      && Valid(r.value)
      && r.value.notes == map[] && r.value.noteTags == {}
      && r.value.tags == s.tags && LocationsKept(s, r.value)
  {
    if !Ready(s) then Err(NoSuchTable)
    else
      var r := DeleteNoteRows(s, s.notes.Keys);
      assert forall p :: p !in r.noteTags;
      Ok(r)
  }

  // ---------------------------------------------------------------- properties across calls

  /** A write that keeps the relations of every note but `k` and every tag
      keeps the tag names of every note but `k`. */
  lemma OtherTaggingKept(s: Store, r: Store, k: nat)
    requires Valid(s) && OtherRelationsKept(s, r, k) && TagsExtended(s, r)
    ensures forall j, n :: j != k ==> (Tagged(r, j, n) <==> Tagged(s, j, n))
  {
    forall j, n | j != k && Tagged(r, j, n)
      ensures Tagged(s, j, n)
    {
      var u :| (j, u) in r.noteTags && u in r.tags && r.tags[u] == n;
      assert (j, u) in s.noteTags;
    }
    forall j, n | j != k && Tagged(s, j, n)
      ensures Tagged(r, j, n)
    {
      var u :| (j, u) in s.noteTags && u in s.tags && s.tags[u] == n;
      assert (j, u) in r.noteTags;
    }
  }

  /** The relation rows of note `k` are determined by the names it is tagged
      with, because tag names are unique. */
  lemma SameTaggingSameRelations(a: Store, b: Store, k: nat)
    requires Valid(a) && Valid(b) && a.tags == b.tags
    requires OtherRelationsKept(a, b, k)
    requires forall n :: Tagged(a, k, n) <==> Tagged(b, k, n)
    ensures a.noteTags == b.noteTags
  {
    forall p | p in a.noteTags && p.0 == k
      ensures p in b.noteTags
    {
      assert Tagged(a, k, a.tags[p.1]);
      var u :| (k, u) in b.noteTags && u in b.tags && b.tags[u] == a.tags[p.1];
    }
    forall p | p in b.noteTags && p.0 == k
      ensures p in a.noteTags
    {
      assert Tagged(b, k, b.tags[p.1]);
      var u :| (k, u) in a.noteTags && u in a.tags && a.tags[u] == b.tags[p.1];
    }
  }

  /** Reading a saved note back gives the note as written: the flag survives
      the 1/0 encoding, zero stamps read as `now`, and the tag names read back
      are the distinct names of the list it was saved with. */
  lemma SaveThenGet(s: Store, note: Note, now: int)
    requires Valid(s) && Ready(s)
    ensures
      var (s', id) := SaveNote(s, note, now).value;
      var got := GetNoteById(s', id);
      && got.Ok?
      && got.value.id == Some(id)
      && got.value.isFavorite == note.isFavorite
      && got.value.title == note.title && got.value.content == note.content
      && got.value.timestamp == note.timestamp && got.value.color == note.color
      && got.value.createdAt == OrNow(note.createdAt, now)
      && got.value.updatedAt == OrNow(note.updatedAt, now)
      && forall n :: n in got.value.tags.value <==> note.tags.Some? && n in note.tags.value
  {
    var (s', id) := SaveNote(s, note, now).value;
    var got := GetNoteById(s', id).value;
    assert RowOf(got) == RowOf(InsertedNote(note, now));
    assert got.isFavorite == DecodeFlag(EncodeFlag(note.isFavorite));
  }

  /** Updating with `tags` undefined keeps the note's tag names; updating with
      the empty list clears them. */
  lemma UpdateTagsContract(s: Store, note: Note, now: int)
    requires Valid(s) && Ready(s)
    requires note.id.Some? && note.id.value in s.notes && note.id.value != 0
    ensures note.tags.None? ==>
      GetNoteTagsByNoteId(UpdateNote(s, note, now).value, note.id.value) == GetNoteTagsByNoteId(s, note.id.value)
    ensures note.tags == Some([]) ==>
      GetNoteTagsByNoteId(UpdateNote(s, note, now).value, note.id.value) == Ok([])
  {
  }

  /** After `deleteNote(id)` the note can no longer be read, and it is gone
      from the full listing. */
  lemma DeleteThenGet(s: Store, id: nat)
    requires Valid(s) && Ready(s) && id in s.notes
    ensures GetNoteById(DeleteNote(s, id).value, id) == Err(NoteNotFound)
    ensures forall n :: n in GetAllNotes(DeleteNote(s, id).value).value ==> n.id != Some(id)
  {
  }

  /** After `deleteAllNotes` every note listing is empty. */
  lemma DeleteAllThenList(s: Store)
    requires Valid(s) && Ready(s)
    ensures GetAllNotes(DeleteAllNotes(s).value) == Ok([])
  {

  }
}
