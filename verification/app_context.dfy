/** The lists the app context of `AppContext.tsx` holds for the screens, and
    its two refresh functions, which re-read them from the store and keep
    them as they were when a read fails. */
module AppContext {
  import opened Wrappers
  import opened Seqs
  import opened Sorting
  import opened Schema
  import opened NoteRepository
  import opened LocationRepository

  /** The `notes`, `favoriteNotes` and `locationHistory` state. */
  datatype Lists = Lists(notes: seq<Note>, favorites: seq<Note>, history: seq<LocationRecord>)

  /** `refreshNotes`: all notes and the favourites, read afresh; a failing
      read leaves the lists as they were. */
  function RefreshNotes(s: Store, l: Lists): (r: Lists)
    requires Valid(s)
    ensures r.history == l.history
    ensures !Ready(s) ==> r == l
    ensures Ready(s) ==> forall n :: n in r.notes <==> IsStoredNote(s, n)
    ensures Ready(s) ==> SortedBy(r.notes, NewestFirst)
    ensures Ready(s) ==> r.favorites == Filter(r.notes, IsFavoriteNote)
  {
    match GetAllNotes(s)
    case Err(_) => l
    case Ok(notes) =>
      match GetFavoriteNotes(s)
      case Err(_) => l.(notes := notes)
      case Ok(favorites) => l.(notes := notes, favorites := favorites)
  }

  /** `refreshLocationHistory`: the whole history, read afresh; a failing read
      leaves it as it was. */
  function RefreshLocationHistory(s: Store, l: Lists): (r: Lists)
    requires Valid(s)
    ensures r.notes == l.notes && r.favorites == l.favorites
    ensures !Ready(s) ==> r == l
    ensures Ready(s) ==> forall x :: x in r.history <==> IsStoredLocation(s, x)
    ensures Ready(s) ==> SortedBy(r.history, LatestFirst)
  {
    match GetLocationHistory(s, None, None)
    case Err(_) => l
    case Ok(history) => l.(history := history)
  }

  /** The favourites shown are the starred notes of the list shown. */
  lemma FavoritesAreStarred(s: Store, l: Lists)
    requires Valid(s) && Ready(s)
    ensures forall n :: n in RefreshNotes(s, l).favorites <==> n in RefreshNotes(s, l).notes && n.isFavorite
  {
  }
}
