/** The note editor of `CreateNoteScreen.tsx`: the tag chips (add, remove),
    the voice input that appends recognised text to the content, and the save
    handler that turns the form into a `Note` and stores it. */
module CreateNoteScreen {
  import opened Wrappers
  import opened Seqs
  import opened Text
  import opened Schema
  import opened NoteRepository

  /** The first of `NOTE_COLORS`, the default (white) background. */
  const DefaultColor: string := "#FFFFFF"
  const UntitledNote: string := "Untitled Note"
  const EmptyContent: string := "Note content cannot be empty"
  const SaveFailed: string := "Failed to save note"

  /** A fix taken by the location button. */
  datatype Place = Place(latitude: int, longitude: int, name: Option<string>)

  /** The form's state. */
  datatype Draft = Draft(
    title: string,
    content: string,
    tags: seq<string>,
    currentTag: string,
    color: string,
    isFavorite: bool,
    location: Option<Place>)

  // ---------------------------------------------------------------- tags

  /** The tag list holds trimmed, non-empty names, each once. */
  predicate CleanTags(tags: seq<string>) {
    Distinct(tags) && forall i :: 0 <= i < |tags| ==> tags[i] != "" && Trim(tags[i]) == tags[i]
  }

  /** `handleAddTag`: the trimmed input is appended, and the input cleared,
      only when it is non-empty and not already a tag; otherwise nothing
      changes. */
  function AddTag(d: Draft): (r: Draft)
    ensures var t := Trim(d.currentTag);
      && (t != "" && t !in d.tags ==> r == d.(tags := d.tags + [t], currentTag := ""))
      && (t == "" || t in d.tags ==> r == d)
  {
    var t := Trim(d.currentTag);
    if t != "" && t !in d.tags then d.(tags := d.tags + [t], currentTag := "") else d
  }

  /** Adding keeps the tag list clean. */
  lemma AddTagKeepsTagsClean(d: Draft)
    requires CleanTags(d.tags)
    ensures CleanTags(AddTag(d).tags)
  {
    TrimIdempotent(d.currentTag);
  }

  /** `handleRemoveTag`: every occurrence of the name goes, the others keep
      their order and their number. */
  function RemoveTag(tags: seq<string>, name: string): (r: seq<string>)
    ensures name !in r
    ensures SubseqOf(r, tags)
    ensures forall t :: t != name ==> multiset(r)[t] == multiset(tags)[t]
  {
    FilterIsSubseq(tags, Differs(name));
    forall t | t != name
      ensures multiset(Filter(tags, Differs(name)))[t] == multiset(tags)[t]
    {
      FilterCount(tags, Differs(name), t);
    }
    Filter(tags, Differs(name))
  }

  /** Removing a tag just added restores the list. */
  lemma RemoveUndoesAdd(d: Draft)
    requires Trim(d.currentTag) != "" && Trim(d.currentTag) !in d.tags
    ensures RemoveTag(AddTag(d).tags, Trim(d.currentTag)) == d.tags
  {
    var t := Trim(d.currentTag);
    FilterAppend(d.tags, [t], Differs(t));
    assert forall i :: 0 <= i < |d.tags| ==> d.tags[i] in d.tags;
    FilterAll(d.tags, Differs(t));
  }

  // ---------------------------------------------------------------- voice input

  /** The recognition callback: the text becomes the content when the
      content is empty, and is appended on a new line otherwise. */
  function AppendRecognized(prev: string, text: string): (r: string)
    ensures prev == "" ==> r == text
    ensures prev != "" ==> |r| == |prev| + 1 + |text| && r[..|prev|] == prev && r[|prev|] == '\n' && r[|prev| + 1..] == text
  {
    if prev == "" then text else prev + "\n" + text
  }

  /** The content after several recognitions into an empty field. */
  function Dictated(texts: seq<string>): string {
    if texts == [] then "" else AppendRecognized(Dictated(texts[..|texts| - 1]), texts[|texts| - 1])
  }

  lemma {:induction false} JoinSnoc(parts: seq<string>, last: string)
    requires |parts| >= 1
    ensures Join(parts + [last], '\n') == Join(parts, '\n') + "\n" + last
  {
    if |parts| > 1 {
      JoinSnoc(parts[1..], last);
      assert (parts + [last])[1..] == parts[1..] + [last];
    }
  }

  /** Non-empty single-line recognitions into an empty field leave one per
      line: splitting the content at line breaks gives them back. */
  lemma {:induction false} DictatedLines(texts: seq<string>)
    requires |texts| >= 1
    requires forall i :: 0 <= i < |texts| ==> texts[i] != "" && '\n' !in texts[i]
    ensures Dictated(texts) == Join(texts, '\n')
    ensures Split(Dictated(texts), '\n') == texts
  {
    var init := texts[..|texts| - 1];
    if |texts| == 1 {
      assert Dictated(init) == "";
    } else {
      DictatedLines(init);
      JoinSnoc(init, texts[|texts| - 1]);
      assert init + [texts[|texts| - 1]] == texts;
      assert Join(init, '\n') != "" by {
        assert |Join(init, '\n')| >= |init[0]| by {
          if |init| > 1 {
            assert Join(init, '\n') == init[0] + ['\n'] + Join(init[1..], '\n');
          }
        }
      }
    }
    SplitJoin(texts, '\n');
  }

  // ---------------------------------------------------------------- save

  /** The `Note` that `handleSave` builds at time `now`, or the alert text
      when the content is blank. */
  function NoteOf(d: Draft, now: int): (r: Result<Note>)
    ensures r.Err? <==> IsBlank(d.content)
    ensures r.Err? ==> r.error == EmptyContent
    ensures r.Ok? ==>
      var n := r.value;
      && n.id == None
      && n.title == Some(if IsBlank(d.title) then UntitledNote else Trim(d.title))
      && n.content == Some(Trim(d.content)) && n.content.value != ""
      && n.timestamp == now && n.createdAt == now && n.updatedAt == now
      && (n.color.None? <==> d.color == DefaultColor)
      && (n.color.Some? ==> n.color.value == d.color)
      && (n.tags.None? <==> d.tags == [])
      && (n.tags.Some? ==> n.tags.value == d.tags)
      && n.isFavorite == d.isFavorite
      && (d.location.None? ==> n.latitude.None? && n.longitude.None? && n.locationName.None?)
      && (d.location.Some? ==>
            n.latitude == Some(d.location.value.latitude) && n.longitude == Some(d.location.value.longitude)
            && n.locationName == d.location.value.name)
  {
    if Trim(d.content) == "" then Err(EmptyContent)
    else
      var title := Trim(d.title);
      Ok(Note(
        None,
        Some(if title != "" then title else UntitledNote),
        Some(Trim(d.content)),
        now,
        if d.location.Some? then Some(d.location.value.latitude) else None,
        if d.location.Some? then Some(d.location.value.longitude) else None,
        if d.location.Some? then d.location.value.name else None,
        if d.color != DefaultColor then Some(d.color) else None,
        d.isFavorite,
        now,
        now,
        if |d.tags| > 0 then Some(d.tags) else None))
  }

  /** `handleSave`: a blank content is refused before anything is written;
      otherwise the note is saved, and a failing write leaves the store as it
      was and reports "Failed to save note". Returns the new note's id. */
  function HandleSave(s: Store, d: Draft, now: int): (r: (Store, Result<nat>))
    requires Valid(s)
    ensures Valid(r.0)
    ensures IsBlank(d.content) ==> r == (s, Err(EmptyContent))
    ensures !IsBlank(d.content) && !Ready(s) ==> r == (s, Err(SaveFailed))
    ensures !IsBlank(d.content) && Ready(s) ==>
      && r.1.Ok? && r.1.value !in s.notes
      && r.0.notes.Keys == s.notes.Keys + {r.1.value}
      && (forall k :: k in s.notes ==> r.0.notes[k] == s.notes[k])
  {
    match NoteOf(d, now)
    case Err(e) => (s, Err(e))
    case Ok(note) =>
      match SaveNote(s, note, now)
      case Err(_) => (s, Err(SaveFailed))
      case Ok((s', id)) => (s', Ok(id))
  }

  /** What the editor saved reads back: the trimmed title (or "Untitled
      Note"), the trimmed content, the stamps, the favourite flag, and exactly
      the draft's tags. */
  lemma SaveThenRead(s: Store, d: Draft, now: int)
    requires Valid(s) && Ready(s) && !IsBlank(d.content) && now != 0
    ensures
      var (s', id) := HandleSave(s, d, now);
      var got := GetNoteById(s', id.value);
      && got.Ok?
      && got.value.title == Some(if IsBlank(d.title) then UntitledNote else Trim(d.title))
      && got.value.content == Some(Trim(d.content))
      && got.value.timestamp == now && got.value.createdAt == now && got.value.updatedAt == now
      && got.value.isFavorite == d.isFavorite
      && (forall t :: t in got.value.tags.value <==> t in d.tags)
  {
    var note := NoteOf(d, now).value;
    SaveThenGet(s, note, now);
  }
}
