/** The search screen of `SearchScreen.tsx`: the search run whenever the query
    or the tag selection changes, the tag chips' toggle, and the favourite
    toggle that patches the shown results in place. Screen state is passed in
    and returned; the store is the repository's. */
module SearchScreen {
  import opened Wrappers
  import opened Seqs
  import opened Sorting
  import opened Text
  import opened Schema
  import opened NoteRepository

  // ---------------------------------------------------------------- tag filter

  /** `note.tags && selectedTags.every(tag => note.tags.includes(tag))`; an
      empty tag array is truthy. */
  predicate HasAllTags(n: Note, selected: seq<string>) {
    n.tags.Some? && forall t :: t in selected ==> t in n.tags.value
  }

  function HasTags(selected: seq<string>): Note -> bool {
    (n: Note) => HasAllTags(n, selected)
  }

  /** A note carrying a selected tag has a tag, so `searchNotes('')` keeps it. */
  lemma TaggedIsSearchable(selected: seq<string>)
    requires selected != []
    ensures forall n :: HasTags(selected)(n) == (HasSearchableField(n) && HasTags(selected)(n))
  {
    forall n | HasTags(selected)(n)
      ensures HasSearchableField(n)
    {
      assert selected[0] in n.tags.value;
    }
  }

  /** Filtering `searchNotes('')` by a non-empty tag selection is filtering
      every note by it. */
  lemma TagFilterOfEmptySearch(s: Store, selected: seq<string>)
    requires Valid(s) && Ready(s) && selected != []
    ensures Filter(SearchNotes(s, "").value, HasTags(selected)) == Filter(GetAllNotes(s).value, HasTags(selected))
  {
    SearchEmptyQuery(s);
    TaggedIsSearchable(selected);
    FilterFilter(GetAllNotes(s).value, HasSearchableField, HasTags(selected), HasTags(selected));
  }

  // ---------------------------------------------------------------- performSearch

  /** `performSearch`: the results shown after the query or the selection
      changed, given the results shown before (kept when a query fails). A
      blank query with no tag selected shows nothing; a non-blank query is
      passed to `searchNotes` untrimmed; with tags selected, the query's
      results are narrowed to the notes carrying every selected tag, and when
      the query gave nothing (blank, or no match) every note is narrowed
      instead. */
  function PerformSearch(s: Store, query: string, selected: seq<string>, shown: seq<Note>): (r: seq<Note>)
    requires Valid(s)
    ensures IsBlank(query) && selected == [] ==> r == []
    ensures !Ready(s) && !(IsBlank(query) && selected == []) ==> r == shown
    ensures Ready(s) && !IsBlank(query) && selected == [] ==>
      r == Filter(GetAllNotes(s).value, MatchesQuery(query))
    ensures Ready(s) && selected != [] ==>
      forall n :: n in r <==>
        && IsStoredNote(s, n) && HasAllTags(n, selected)
        && (!IsBlank(query) && SearchNotes(s, query).value != [] ==> NoteMatches(n, query))
    ensures Ready(s) ==> SortedBy(r, NewestFirst) && Distinct(r)
  {
    if IsBlank(query) && selected == [] then []
    else
      var first := if !IsBlank(query) then SearchNotes(s, query) else Ok([]);
      if first.Err? then shown
      else if selected == [] then
        FilterSorted(GetAllNotes(s).value, NewestFirst, MatchesQuery(query));
        FilterDistinct(GetAllNotes(s).value, MatchesQuery(query));
        first.value
      else if |first.value| > 0 then
        var all := GetAllNotes(s).value;
        FilterFilter(all, MatchesQuery(query), HasTags(selected), (n: Note) => NoteMatches(n, query) && HasAllTags(n, selected));
        FilterSorted(all, NewestFirst, (n: Note) => NoteMatches(n, query) && HasAllTags(n, selected));
        FilterDistinct(all, (n: Note) => NoteMatches(n, query) && HasAllTags(n, selected));
        Filter(first.value, HasTags(selected))
      else
        var everything := SearchNotes(s, "");
        if everything.Err? then shown
        else
          TagFilterOfEmptySearch(s, selected);
          FilterSorted(GetAllNotes(s).value, NewestFirst, HasTags(selected));
          FilterDistinct(GetAllNotes(s).value, HasTags(selected));
          Filter(everything.value, HasTags(selected))
  }

  /** A query that matches nothing does not narrow a tag search: the screen
      then shows every note carrying the selected tags, as for a blank query. */
  lemma UnmatchedQueryIsIgnored(s: Store, query: string, selected: seq<string>, shown: seq<Note>)
    requires Valid(s) && Ready(s) && selected != []
    requires SearchNotes(s, query).value == []
    ensures PerformSearch(s, query, selected, shown) == PerformSearch(s, "", selected, shown)
    ensures PerformSearch(s, query, selected, shown) == Filter(GetAllNotes(s).value, HasTags(selected))
  {
    assert IsBlank("");
    TagFilterOfEmptySearch(s, selected);
  }

  /** With tags selected, the shown notes are the query's results that carry
      every selected tag, whenever the query has results. */
  lemma TagsNarrowQueryResults(s: Store, query: string, selected: seq<string>, shown: seq<Note>)
    requires Valid(s) && Ready(s) && selected != [] && !IsBlank(query)
    ensures SearchNotes(s, query).value != [] ==>
      && PerformSearch(s, query, selected, shown) == Filter(SearchNotes(s, query).value, HasTags(selected))
      && SubseqOf(PerformSearch(s, query, selected, shown), SearchNotes(s, query).value)
  {
    FilterIsSubseq(SearchNotes(s, query).value, HasTags(selected));
  }

  // ---------------------------------------------------------------- tag chips

  /** `handleTagToggle`: a selected tag is removed (every occurrence), an
      unselected one is appended. */
  function ToggleTag(selected: seq<string>, tag: string): (r: seq<string>)
    ensures forall t :: t in r <==> (t in selected <==> t != tag)
    ensures tag in selected ==> SubseqOf(r, selected) && |r| < |selected|
    ensures tag !in selected ==> |r| == |selected| + 1 && r[..|selected|] == selected
  {
    if tag in selected then
      FilterIsSubseq(selected, Differs(tag));
      var i :| 0 <= i < |selected| && selected[i] == tag;
      FilterDrops(selected, Differs(tag), i);
      Filter(selected, Differs(tag))
    else
      selected + [tag]
  }

  /** Toggling keeps the selection free of duplicates. */
  lemma ToggleTagDistinct(selected: seq<string>, tag: string)
    requires Distinct(selected)
    ensures Distinct(ToggleTag(selected, tag))
  {
    if tag in selected {
      FilterDistinct(selected, Differs(tag));
    }
  }

  /** Toggling a tag twice restores the selection: exactly when the tag was
      not selected; otherwise the tag moves to the end, so the same tags are
      selected, each as often as before. */
  lemma ToggleTagTwice(selected: seq<string>, tag: string)
    requires Distinct(selected)
    ensures tag !in selected ==> ToggleTag(ToggleTag(selected, tag), tag) == selected
    ensures multiset(ToggleTag(ToggleTag(selected, tag), tag)) == multiset(selected)
  {
    var once := ToggleTag(selected, tag);
    if tag !in selected {
      assert once[..|selected|] == selected;
      FilterAppend(selected, [tag], Differs(tag));
      FilterAll(selected, Differs(tag));
    } else {
      assert tag !in once;
      DistinctCount(selected, tag);
      forall t
        ensures multiset(once + [tag])[t] == multiset(selected)[t]
      {
        FilterCount(selected, Differs(tag), t);
      }
      assert multiset(once + [tag]) == multiset(selected);
    }
  }

  // ---------------------------------------------------------------- favourites

  /** The result-list patch after a successful favourite write: every shown
      note with the toggled note's id has its own flag flipped. */
  function FlipFavorite(shown: seq<Note>, id: Option<nat>): (r: seq<Note>)
    ensures |r| == |shown|
    ensures forall i :: 0 <= i < |shown| ==>
      && (shown[i].id == id ==> r[i] == shown[i].(isFavorite := !shown[i].isFavorite))
      && (shown[i].id != id ==> r[i] == shown[i])
  {
    MapSeq(shown, (n: Note) => if n.id == id then n.(isFavorite := !n.isFavorite) else n)
  }

  /** Flipping twice restores the list. */
  lemma FlipFavoriteTwice(shown: seq<Note>, id: Option<nat>)
    ensures FlipFavorite(FlipFavorite(shown, id), id) == shown
  {
  }

  /** `handleFavoriteToggle`: writes the note with its flag negated; when the
      write succeeds the shown results are patched, when it fails nothing
      changes. */
  function ToggleFavorite(s: Store, note: Note, shown: seq<Note>, now: int): (r: (Store, seq<Note>))
    requires Valid(s)
    ensures Valid(r.0)
    ensures UpdateNote(s, note.(isFavorite := !note.isFavorite), now).Err? ==> r == (s, shown)
    ensures UpdateNote(s, note.(isFavorite := !note.isFavorite), now).Ok? ==>
      && r.0.notes.Keys == s.notes.Keys
      && r.0.notes[note.id.value].isFavorite == EncodeFlag(!note.isFavorite)
      && r.1 == FlipFavorite(shown, note.id)
  {
    match UpdateNote(s, note.(isFavorite := !note.isFavorite), now)
    case Err(_) => (s, shown)
    case Ok(s') => (s', FlipFavorite(shown, note.id))
  }

  /** After a successful toggle, a shown copy of the toggled note displays
      the flag the store now holds. */
  lemma ToggleFavoriteShowsStored(s: Store, note: Note, shown: seq<Note>, now: int, i: nat)
    requires Valid(s) && i < |shown| && shown[i] == note
    requires UpdateNote(s, note.(isFavorite := !note.isFavorite), now).Ok?
    ensures var (s', shown') := ToggleFavorite(s, note, shown, now);
      EncodeFlag(shown'[i].isFavorite) == s'.notes[note.id.value].isFavorite
  {
  }
}
