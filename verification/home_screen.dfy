/** The note list of `HomeScreen.tsx`: the in-memory search box filter over
    the notes loaded by the app context, the list's subtitle, and the star
    button, which does not write anything. */
module HomeScreen {
  import opened Wrappers
  import opened Seqs
  import opened Sorting
  import opened Text
  import opened Schema
  import opened NoteRepository
  import opened AppContext

  // ---------------------------------------------------------------- the filter

  /** `note.title && note.title.toLowerCase().includes(q.toLowerCase())`. */
  predicate TitleHit(n: Note, q: string) {
    n.title.Some? && n.title.value != "" && ContainsIgnoreCase(n.title.value, q)
  }

  /** `note.tags && note.tags.some(tag => tag.toLowerCase().includes(...))`. */
  predicate TagHit(n: Note, q: string) {
    n.tags.Some? && exists t :: t in n.tags.value && ContainsIgnoreCase(t, q)
  }

  /** The filter's test with a NULL content read as "no match"; the place
      name is not searched. */
  predicate HomeMatches(n: Note, q: string) {
    || TitleHit(n, q)
    || (n.content.Some? && ContainsIgnoreCase(n.content.value, q))
    || TagHit(n, q)
  }

  function HomeMatching(q: string): Note -> bool {
    (n: Note) => HomeMatches(n, q)
  }

  /** `filteredNotes`: an empty search text shows the list as it is; any
      other text (untrimmed) keeps, in list order, the notes whose title,
      content or one of whose tags contains it, ignoring case. */
  function FilterNotes(notes: seq<Note>, q: string): (r: seq<Note>)
    ensures q == "" ==> r == notes
    ensures q != "" ==> forall n :: n in r <==> n in notes && HomeMatches(n, q)
    ensures SubseqOf(r, notes)
  {
    if q == "" then
      FilterAll(notes, (n: Note) => true);
      FilterIsSubseq(notes, (n: Note) => true);
      notes
    else
      FilterIsSubseq(notes, HomeMatching(q));
      Filter(notes, HomeMatching(q))
  }

  /** The filter keeps the list's order: a list sorted newest first stays so. */
  lemma FilterNotesSorted(notes: seq<Note>, q: string)
    requires SortedBy(notes, NewestFirst)
    ensures SortedBy(FilterNotes(notes, q), NewestFirst)
  {
    FilterSorted(notes, NewestFirst, HomeMatching(q));
  }

  /** The place name plays no part: notes that differ only in it are kept or
      dropped together. */
  lemma FilterIgnoresLocation(n: Note, q: string, place: Option<string>)
    requires q != ""
    ensures FilterNotes([n], q) == [] <==> FilterNotes([n.(locationName := place)], q) == []
  {
  }

  /** On the notes `getAllNotes` lists, the screen's filter finds a subset of
      what `searchNotes` finds for the same text, in the same order: the
      repository search also looks at the place name. */
  lemma FilterWithinSearch(s: Store, q: string)
    requires Valid(s) && Ready(s) && q != ""
    ensures SubseqOf(FilterNotes(GetAllNotes(s).value, q), SearchNotes(s, q).value)
  {
    var all := GetAllNotes(s).value;
    assert forall n :: HomeMatching(q)(n) == (MatchesQuery(q)(n) && HomeMatching(q)(n)) by {
      forall n | HomeMatching(q)(n)
        ensures MatchesQuery(q)(n)
      {
        if TagHit(n, q) {
          var t :| t in n.tags.value && ContainsIgnoreCase(t, q);
        }
      }
    }
    FilterFilter(all, MatchesQuery(q), HomeMatching(q), HomeMatching(q));
    FilterIsSubseq(Filter(all, MatchesQuery(q)), HomeMatching(q));
  }

  // ---------------------------------------------------------------- the filter as written

  /** One note under the filter as written: None when the test throws. The
      `||` evaluates left to right, so `note.content.toLowerCase()` runs (and
      throws on NULL) only when the title did not match. */
  function KeepAsWritten(n: Note, q: string): (r: Option<bool>)
    ensures r.None? <==> !TitleHit(n, q) && n.content.None?
    ensures r.Some? ==> r.value == HomeMatches(n, q)
  {
    if TitleHit(n, q) then Some(true)
    else if n.content.None? then None
    else Some(ContainsIgnoreCase(n.content.value, q) || TagHit(n, q))
  }

  /** `notes.filter(...)` with a test that may throw: None when it throws on
      some note. */
  function FilterOrThrow(notes: seq<Note>, q: string): (r: Option<seq<Note>>)
    ensures r.None? <==> exists i :: 0 <= i < |notes| && KeepAsWritten(notes[i], q).None?
    ensures r.Some? ==> r.value == Filter(notes, HomeMatching(q))
  {
    if notes == [] then Some([])
    else
      match KeepAsWritten(notes[0], q)
      case None => None
      case Some(keep) =>
        var rest := FilterOrThrow(notes[1..], q);
        assert forall i :: 1 <= i < |notes| ==> notes[i] == notes[1..][i - 1];
        if rest.None? then
          var i :| 0 <= i < |notes[1..]| && KeepAsWritten(notes[1..][i], q).None?;
          assert KeepAsWritten(notes[i + 1], q).None?;
          None
        else if keep then Some([notes[0]] + rest.value)
        else Some(rest.value)
  }

  /** `filteredNotes` as the screen computes it: None stands for the
      TypeError a note with a NULL content raises when its title does not
      match. */
  function FilterNotesAsWritten(notes: seq<Note>, q: string): (r: Option<seq<Note>>)
    ensures q == "" ==> r == Some(notes)
    ensures q != "" ==> (r.None? <==> exists i :: 0 <= i < |notes| && !TitleHit(notes[i], q) && notes[i].content.None?)
  {
    if q == "" then Some(notes) else FilterOrThrow(notes, q)
  }

  /** Where the screen does not throw it computes the corrected filter; in
      particular on lists whose notes all have a content. */
  lemma AsWrittenAgrees(notes: seq<Note>, q: string)
    ensures FilterNotesAsWritten(notes, q).Some? ==> FilterNotesAsWritten(notes, q).value == FilterNotes(notes, q)
    ensures (forall i :: 0 <= i < |notes| ==> notes[i].content.Some?) ==>
      FilterNotesAsWritten(notes, q) == Some(FilterNotes(notes, q))
  {
  }

  /** A note without title and with a NULL content (a backup may hold one; the
      column is nullable) makes the screen throw on any search text, where
      the intended filter just leaves it out. */
  lemma NullContentThrows()
    ensures var n := Note(None, None, None, 0, None, None, None, None, false, 0, 0, Some([]));
      && FilterNotesAsWritten([n], "a") == None
      && FilterNotes([n], "a") == []
  {
    var n := Note(None, None, None, 0, None, None, None, None, false, 0, 0, Some([]));
    assert KeepAsWritten([n][0], "a").None?;
  }

  // ---------------------------------------------------------------- subtitle

  /** `${notes.length} note${notes.length !== 1 ? 's' : ''}`. */
  function Subtitle(count: nat): (r: string)
    ensures count == 1 ==> r == "1 note"
    ensures count != 1 ==> r == NatToString(count) + " notes"
  {
    NatToString(count) + " note" + (if count != 1 then "s" else "")
  }

  /** The subtitle starts with the count: `parseInt` reads it back. */
  lemma SubtitleCount(count: nat)
    ensures ParseInt(Subtitle(count)) == Some(count)
  {
    var d := NatToString(count);
    var rest := " note" + (if count != 1 then "s" else "");
    assert Subtitle(count) == d + rest;
    DigitPrefixOfAppend(d, rest);
    assert (d + rest)[..|d|] == d;
    NatToStringValue(count);
  }

  /** Distinct counts give distinct subtitles. */
  lemma SubtitleInjective(a: nat, b: nat)
    requires Subtitle(a) == Subtitle(b)
    ensures a == b
  {
    SubtitleCount(a);
    SubtitleCount(b);
  }

  // ---------------------------------------------------------------- star button

  /** `handleFavoriteToggle` of this screen: the negated note is built but
      never written, and the lists are reloaded. The store is unchanged. */
  function ToggleFavorite(s: Store, note: Note, l: Lists): (r: (Store, Lists))
    requires Valid(s)
    ensures r.0 == s
    ensures r.1 == RefreshNotes(s, l)
  {
    (s, RefreshNotes(s, l))
  }

  /** The star changes nothing: lists that were fresh stay as they were, and
      the stored flag is the one before. */
  lemma ToggleFavoriteChangesNothing(s: Store, note: Note, l: Lists)
    requires Valid(s) && Ready(s)
    ensures var current := RefreshNotes(s, l);
      && ToggleFavorite(s, note, current) == (s, current)
      && (note.id.Some? && note.id.value in s.notes ==>
            s.notes[note.id.value].isFavorite == ToggleFavorite(s, note, l).0.notes[note.id.value].isFavorite)
  {
  }
}
