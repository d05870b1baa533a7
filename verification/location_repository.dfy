/** The location log of `locationRepository.ts`: an AUTOINCREMENT table of
    position fixes with an insert, a range query, a latest-fix query, a range
    delete and a full clear. */
module LocationRepository {
  import opened Wrappers
  import opened Seqs
  import opened Sorting
  import opened Schema

  /** The `LocationRecord` interface; coordinates are opaque integers. */
  datatype LocationRecord = LocationRecord(
    id: Option<nat>,
    latitude: int,
    longitude: int,
    timestamp: int,
    locationName: Option<string>)

  /** The columns a record is written with. */
  function LocationRowOf(x: LocationRecord): LocationRow {
    LocationRow(x.latitude, x.longitude, x.timestamp, x.locationName)
  }

  /** A row as `SELECT *` returns it. */
  function ReadLocation(s: Store, id: nat): (x: LocationRecord)
    requires id in s.locations
    ensures x.id == Some(id) && LocationRowOf(x) == s.locations[id]
  {
    var row := s.locations[id];
    LocationRecord(Some(id), row.latitude, row.longitude, row.timestamp, row.locationName)
  }

  /** `x` is what a read returns for one of the stored records. */
  ghost predicate IsStoredLocation(s: Store, x: LocationRecord) {
    x.id.Some? && x.id.value in s.locations && x == ReadLocation(s, x.id.value)
  }

  // ---------------------------------------------------------------- bounds

  /** A bound joins the WHERE clause only when it is truthy, so an undefined
      bound and a bound of 0 are both absent. */
  predicate Present(bound: Option<int>) {
    bound.Some? && bound.value != 0
  }

  /** The WHERE clause built from the bounds; both bounds are inclusive. */
  predicate InRange(timestamp: int, start: Option<int>, end: Option<int>) {
    && (Present(start) ==> start.value <= timestamp)
    && (Present(end) ==> timestamp <= end.value)
  }

  function InRangeOf(start: Option<int>, end: Option<int>): LocationRecord -> bool {
    (x: LocationRecord) => InRange(x.timestamp, start, end)
  }

  /** `ORDER BY timestamp DESC`. */
  const LatestFirst: (LocationRecord, LocationRecord) -> bool :=
    (a: LocationRecord, b: LocationRecord) => a.timestamp >= b.timestamp

  lemma LatestFirstTotal()
    ensures TotalPreorder(LatestFirst)
  {
  }

  // ---------------------------------------------------------------- operations

  /** `saveLocation`: appends one record under a fresh id, larger than every
      id handed out before, and returns that id. */
  function SaveLocation(s: Store, x: LocationRecord): (r: Result<(Store, nat)>)
    requires Valid(s)
    ensures r.Err? <==> !Ready(s)
    ensures r.Err? ==> r.error == NoSuchTable
    ensures r.Ok? ==>
      var (s', id) := r.value;
      && Valid(s')
      && (forall k :: k in s.locations ==> k < id)
      && s'.locations == s.locations[id := LocationRowOf(x)]
      && s'.tables == s.tables && s'.notes == s.notes && s'.tags == s.tags && s'.noteTags == s.noteTags
  {
    if !Ready(s) then Err(NoSuchTable)
    else
      var id := s.locationSeq + 1;
      Ok((s.(locations := s.locations[id := LocationRowOf(x)], locationSeq := id), id))
  }

  /** Reads the rows `ids`, in order. */
  function ReadLocations(s: Store, ids: seq<nat>): (r: seq<LocationRecord>)
    requires forall i :: i in ids ==> i in s.locations
    ensures |r| == |ids|
    ensures forall k :: 0 <= k < |ids| ==> r[k] == ReadLocation(s, ids[k])
  {
    if ids == [] then [] else [ReadLocation(s, ids[0])] + ReadLocations(s, ids[1..])
  }

  /** Every record, in scan (ascending id) order. */
  function ScanLocations(s: Store): (r: seq<LocationRecord>)
    requires Valid(s)
    ensures forall x :: x in r <==> IsStoredLocation(s, x)
    ensures forall id :: id in s.locations ==> ReadLocation(s, id) in r
    ensures Distinct(r)
    ensures s.locations == map[] ==> r == []
  {
    var ids := LocationIds(s);
    var r := ReadLocations(s, ids);
    assert forall x :: IsStoredLocation(s, x) ==> x in r by {
      forall x | IsStoredLocation(s, x)
        ensures x in r
      {
        var k :| 0 <= k < |ids| && ids[k] == x.id.value;
        assert r[k] == x;
      }
    }
    r
  }

  /** `getLocationHistory(start, end)`: exactly the records inside the
      bounds, latest first. */
  function GetLocationHistory(s: Store, start: Option<int>, end: Option<int>): (r: Result<seq<LocationRecord>>)
    requires Valid(s)
    ensures r.Err? <==> !Ready(s)
    ensures r.Err? ==> r.error == NoSuchTable
    ensures r.Ok? ==> forall x :: x in r.value <==> IsStoredLocation(s, x) && InRange(x.timestamp, start, end)
    ensures r.Ok? ==> SortedBy(r.value, LatestFirst) && Distinct(r.value)
  {
    if !Ready(s) then Err(NoSuchTable)
    else
      var selected := Filter(ScanLocations(s), InRangeOf(start, end));
      LatestFirstTotal();
      SortSorted(selected, LatestFirst);
      FilterDistinct(ScanLocations(s), InRangeOf(start, end));
      DistinctPermutation(selected, Sort(selected, LatestFirst));
      Ok(Sort(selected, LatestFirst))
  }

  /** A bound of 0 selects the same records, in the same order, as no bound. */
  lemma ZeroBoundIsAbsent(s: Store, start: Option<int>, end: Option<int>)
    requires Valid(s)
    ensures GetLocationHistory(s, Some(0), end) == GetLocationHistory(s, None, end)
    ensures GetLocationHistory(s, start, Some(0)) == GetLocationHistory(s, start, None)
  {
    FilterExt(ScanLocations(s), InRangeOf(Some(0), end), InRangeOf(None, end));
    FilterExt(ScanLocations(s), InRangeOf(start, Some(0)), InRangeOf(start, None));
  }

  /** With no bound the history is the whole log. */
  lemma UnboundedHistory(s: Store)
    requires Valid(s) && Ready(s)
    ensures forall x :: x in GetLocationHistory(s, None, None).value <==> IsStoredLocation(s, x)
  {
  }

  /** `getLatestLocation` (`ORDER BY timestamp DESC LIMIT 1`): a record with
      the largest timestamp, or null for an empty log. */
  function GetLatestLocation(s: Store): (r: Result<Option<LocationRecord>>)
    requires Valid(s)
    ensures r.Err? <==> !Ready(s)
    ensures r.Err? ==> r.error == NoSuchTable
    ensures r.Ok? ==> (r.value.None? <==> s.locations == map[])
    ensures r.Ok? && r.value.Some? ==>
      && IsStoredLocation(s, r.value.value)
      && forall y :: IsStoredLocation(s, y) ==> y.timestamp <= r.value.value.timestamp
  {
    if !Ready(s) then Err(NoSuchTable)
    else
      var sorted := Sort(ScanLocations(s), LatestFirst);
      LatestFirstTotal();
      SortSorted(ScanLocations(s), LatestFirst);
      if sorted == [] then Ok(None)
      else
        HeadIsLatest(sorted);
        Ok(Some(sorted[0]))
  }

  /** The head of a list sorted latest first has the largest timestamp. */
  lemma HeadIsLatest(xs: seq<LocationRecord>)
    requires xs != [] && SortedBy(xs, LatestFirst)
    ensures forall y :: y in xs ==> y.timestamp <= xs[0].timestamp
  {
    forall y | y in xs
      ensures y.timestamp <= xs[0].timestamp
    {
      var j :| 0 <= j < |xs| && xs[j] == y;
      if j > 0 {
        assert LatestFirst(xs[0], xs[j]);
      }
    }
  }

  /** The latest fix is the head of the unbounded history. */
  lemma LatestIsHistoryHead(s: Store)
    requires Valid(s) && Ready(s)
    ensures var h := GetLocationHistory(s, None, None).value;
      GetLatestLocation(s).value == if h == [] then None else Some(h[0])
  {
    FilterAll(ScanLocations(s), InRangeOf(None, None));
  }

  /** `deleteLocationHistory(start, end)`: removes the records inside the
      bounds and keeps every other record as it was. */
  function DeleteLocationHistory(s: Store, start: Option<int>, end: Option<int>): (r: Result<Store>)
    requires Valid(s)
    ensures r.Err? <==> !Ready(s)
    ensures r.Err? ==> r.error == NoSuchTable
    ensures r.Ok? ==>
      && Valid(r.value)
      && (forall id :: id in r.value.locations <==>
            id in s.locations && !InRange(s.locations[id].timestamp, start, end))
      && (forall id :: id in r.value.locations ==> r.value.locations[id] == s.locations[id])
      && r.value.locationSeq == s.locationSeq
      && r.value.tables == s.tables && r.value.notes == s.notes && r.value.tags == s.tags
      && r.value.noteTags == s.noteTags
  {
    if !Ready(s) then Err(NoSuchTable)
    else
      Ok(s.(locations := map id | id in s.locations && !InRange(s.locations[id].timestamp, start, end)
                                :: s.locations[id]))
  }

  /** The delete removes exactly the records the query with the same bounds
      returns: afterwards that query is empty, and a record survives iff the
      query did not return it. */
  lemma DeleteRemovesQueried(s: Store, start: Option<int>, end: Option<int>)
    requires Valid(s) && Ready(s)
    ensures var s' := DeleteLocationHistory(s, start, end).value;
      && GetLocationHistory(s', start, end) == Ok([])
      && forall x :: IsStoredLocation(s, x) ==>
           (IsStoredLocation(s', x) <==> x !in GetLocationHistory(s, start, end).value)
  {
    var s' := DeleteLocationHistory(s, start, end).value;
    var scan := ScanLocations(s');
    assert forall i :: 0 <= i < |scan| ==> !InRangeOf(start, end)(scan[i]) by {
      forall i | 0 <= i < |scan|
        ensures !InRangeOf(start, end)(scan[i])
      {
        assert scan[i] in scan;
      }
    }
    FilterNone(scan, InRangeOf(start, end));
  }

  /** `clearLocationHistory`: the log is empty; its counter is kept, so ids
      are never reused. */
  function ClearLocationHistory(s: Store): (r: Result<Store>)
    requires Valid(s)
    ensures r.Err? <==> !Ready(s)
    ensures r.Err? ==> r.error == NoSuchTable
    ensures r.Ok? ==>
      && Valid(r.value) && r.value.locations == map[] && r.value.locationSeq == s.locationSeq
      && r.value.tables == s.tables && r.value.notes == s.notes && r.value.tags == s.tags
      && r.value.noteTags == s.noteTags
  {
    if !Ready(s) then Err(NoSuchTable) else Ok(s.(locations := map[]))
  }

  /** After a clear the history is empty and there is no latest fix. */
  lemma ClearThenQuery(s: Store, start: Option<int>, end: Option<int>)
    requires Valid(s) && Ready(s)
    ensures GetLocationHistory(ClearLocationHistory(s).value, start, end) == Ok([])
    ensures GetLatestLocation(ClearLocationHistory(s).value) == Ok(None)
  {
  }

  /** Deleting with no bound is clearing. */
  lemma DeleteUnboundedIsClear(s: Store)
    requires Valid(s) && Ready(s)
    ensures DeleteLocationHistory(s, None, None) == ClearLocationHistory(s)
  {
  }
}
