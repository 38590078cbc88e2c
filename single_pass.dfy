/**
 * The first version of the matcher: the preprocessed GT trips and OBA
 * activities are turned into merge inputs keyed by `ClosestTime`, and the
 * whole of both tables is joined in one nearest as-of join, without
 * grouping by collector or user.
 */
module SinglePass {
  import opened Common
  import opened Table
  import opened Constants
  import opened Preprocess
  import opened Merger

  /** An identifier cell: its text, or missing. */
  function IdOf(c: Cell): Option<string>
  {
    if c.Text? then Some(c.s) else None
  }

  /** Every row carries a UTC instant in its `ClosestTime` column. */
  predicate Keyed(rows: seq<Row>)
  {
    forall row :: row in rows ==> Get(row, CLOSEST_TIME).Instant?
  }

  /** The GT rows as merge inputs: collector, key and cells, in row order. */
  function AsTrips(rows: seq<Row>): (trips: seq<Trip>)
    requires Keyed(rows)
    ensures |trips| == |rows|
    ensures forall i :: 0 <= i < |rows| ==>
              && trips[i].row == rows[i]
              && Get(rows[i], CLOSEST_TIME) == Instant(trips[i].closestTime)
              && trips[i].collector == IdOf(Get(rows[i], GT_COLLECTOR))
  {
    seq(|rows|, i requires 0 <= i < |rows| =>
      assert rows[i] in rows;
      Trip(IdOf(Get(rows[i], GT_COLLECTOR)), Get(rows[i], CLOSEST_TIME).ms, rows[i]))
  }

  /** The OBA rows as merge inputs: user, key and cells, in row order. */
  function AsActivities(rows: seq<Row>): (acts: seq<Activity>)
    requires Keyed(rows)
    ensures |acts| == |rows|
    ensures forall i :: 0 <= i < |rows| ==>
              && acts[i].row == rows[i]
              && Get(rows[i], CLOSEST_TIME) == Instant(acts[i].start)
              && acts[i].userId == IdOf(Get(rows[i], USER_ID))
  {
    seq(|rows|, i requires 0 <= i < |rows| =>
      assert rows[i] in rows;
      Activity(IdOf(Get(rows[i], USER_ID)), Get(rows[i], CLOSEST_TIME).ms, rows[i]))
  }

  /**
   * Both preprocessings leave a UTC key on every row; on an activity the key
   * is its start instant.
   */
  lemma PreprocessedFramesAreKeyed(columns: seq<string>, gtRows: seq<Row>, render: Cell -> string,
                                   parseTime: string -> Option<TimeOfDay>, zones: set<string>,
                                   offsetAt: (string, int) -> int, clean: seq<Row>,
                                   obaRows: seq<Row>, minDuration: real, minLength: real,
                                   parseInstant: string -> Option<int>)
    requires GtSchema(columns, gtRows)
    requires GtOutcome(columns, gtRows, render, parseTime, zones, offsetAt) == Success(clean)
    ensures Keyed(clean)
    ensures var activities := CleanObaRows(obaRows, minDuration, minLength, parseInstant);
            && Keyed(activities)
            && forall i :: 0 <= i < |activities| ==>
                 Get(activities[i], ACTIVITY_START) == Instant(AsActivities(activities)[i].start)
  {
    forall row | row in clean ensures Get(row, CLOSEST_TIME).Instant? {
      CleanTripFacts(columns, gtRows, render, parseTime, zones, offsetAt, clean, row);
    }
    var activities := CleanObaRows(obaRows, minDuration, minLength, parseInstant);
    forall row | row in activities
      ensures Get(row, CLOSEST_TIME).Instant? && Get(row, CLOSEST_TIME) == Get(row, ACTIVITY_START)
    {
      CleanActivityFacts(obaRows, minDuration, minLength, parseInstant, row);
    }
    forall i | 0 <= i < |activities|
      ensures Get(activities[i], ACTIVITY_START) == Instant(AsActivities(activities)[i].start)
    {
      assert activities[i] in activities;
    }
  }

  datatype MainError =
    | KeysContainNull     // a row without a key instant
    | Join(error: MergeError)

  /** The outcome of a join, with its error wrapped. */
  function Lift(r: Result<seq<Merged>, MergeError>): (l: Result<seq<Merged>, MainError>)
    ensures l.Success? <==> r.Success?
    ensures r.Success? ==> l.value == r.value
    ensures r.Failure? ==> l.error == Join(r.error)
  {
    match r
    case Success(rows) => Success(rows)
    case Failure(e) => Failure(Join(e))
  }

  /**
   * The merge as the first version writes it: one nearest as-of join of the
   * two preprocessed tables in the order the preprocessing left them. It
   * succeeds only on tables already ascending by key.
   */
  function MatchAsWritten(gtRows: seq<Row>, obaRows: seq<Row>, tol: int): (r: Result<seq<Merged>, MainError>)
    ensures r.Success? <==>
              && tol >= 0 && Keyed(gtRows) && Keyed(obaRows)
              && SortedBy(AsTrips(gtRows), TripKey) && SortedBy(AsActivities(obaRows), StartKey)
    ensures r.Success? ==> |r.value| == |gtRows|
    ensures tol < 0 ==> r == Failure(Join(NegativeTolerance))
  {
    if tol < 0 then Failure(Join(NegativeTolerance))
    else if !Keyed(gtRows) || !Keyed(obaRows) then Failure(KeysContainNull)
    else Lift(AsofJoin(AsTrips(gtRows), AsActivities(obaRows), tol))
  }

  /**
   * The same join on both tables sorted by their key first, as the grouped
   * merge does: it fails exactly on a negative tolerance or a missing key.
   */
  function Match(gtRows: seq<Row>, obaRows: seq<Row>, tol: int): (r: Result<seq<Merged>, MainError>)
    ensures r.Success? <==> tol >= 0 && Keyed(gtRows) && Keyed(obaRows)
    ensures r.Success? ==> |r.value| == |gtRows|
    ensures tol < 0 ==> r == Failure(Join(NegativeTolerance))
  {
    if tol < 0 then Failure(Join(NegativeTolerance))
    else if !Keyed(gtRows) || !Keyed(obaRows) then Failure(KeysContainNull)
    else Lift(AsofJoin(SortBy(AsTrips(gtRows), TripKey), SortBy(AsActivities(obaRows), StartKey), tol))
  }

  /**
   * Two trips logged later-first, which the GT preprocessing keeps in that
   * order: the join as written refuses them, the sorted join pairs them.
   */
  lemma UnsortedTripsRejected()
    ensures var gt := [map[CLOSEST_TIME := Instant(2000)], map[CLOSEST_TIME := Instant(1000)]];
            && MatchAsWritten(gt, [], 3000) == Failure(Join(LeftNotSorted))
            && Match(gt, [], 3000).Success?
  {
    var gt := [map[CLOSEST_TIME := Instant(2000)], map[CLOSEST_TIME := Instant(1000)]];
    var trips := AsTrips(gt);
    assert trips[0].closestTime == 2000 && trips[1].closestTime == 1000;
    assert !SortedBy(trips, TripKey);
  }

  /** Joined against activities in any order, the same result is nearest. */
  lemma NearestWithinReordered(t: int, acts: seq<Activity>, others: seq<Activity>, tol: int, r: Option<Activity>)
    requires forall a :: a in acts <==> a in others
    requires IsNearestWithin(t, acts, tol, r)
    ensures IsNearestWithin(t, others, tol, r)
  {
  }

  /**
   * A successful sorted join keeps every GT trip once, ascending by key,
   * and pairs it with none of the activities when none lies within the
   * tolerance, and otherwise with a nearest one of all of them.
   */
  lemma MatchMeaning(gtRows: seq<Row>, obaRows: seq<Row>, tol: int)
    requires Match(gtRows, obaRows, tol).Success?
    ensures var r := Match(gtRows, obaRows, tol).value;
            && SortedBy(TripsOf(r), TripKey)
            && multiset(TripsOf(r)) == multiset(AsTrips(gtRows))
            && forall i :: 0 <= i < |r| ==>
                 IsNearestWithin(r[i].trip.closestTime, AsActivities(obaRows), tol, r[i].activity)
  {
    var trips := SortBy(AsTrips(gtRows), TripKey);
    var acts := SortBy(AsActivities(obaRows), StartKey);
    var r := Match(gtRows, obaRows, tol).value;
    AsofJoinMeaning(trips, acts, tol);
    assert TripsOf(r) == trips;
    SortByMembers(AsActivities(obaRows), StartKey);
    forall i | 0 <= i < |r|
      ensures IsNearestWithin(r[i].trip.closestTime, AsActivities(obaRows), tol, r[i].activity)
    {
      NearestWithinReordered(r[i].trip.closestTime, acts, AsActivities(obaRows), tol, r[i].activity);
    }
  }

  /**
   * On tables whose keys are strictly ascending, the join as written and
   * the sorted join agree: sorting leaves such tables as they are.
   */
  lemma AsWrittenAgreesWhenSorted(gtRows: seq<Row>, obaRows: seq<Row>, tol: int)
    requires Keyed(gtRows) && Keyed(obaRows)
    requires StrictlySortedBy(AsTrips(gtRows), TripKey) && StrictlySortedBy(AsActivities(obaRows), StartKey)
    ensures MatchAsWritten(gtRows, obaRows, tol) == Match(gtRows, obaRows, tol)
  {
    SortByOfStrictlySorted(AsTrips(gtRows), TripKey);
    SortByOfStrictlySorted(AsActivities(obaRows), StartKey);
  }

  /**
   * Two activities each nearest to `t` within `tol`, ties going to the
   * earlier start, among the same activities, start at the same instant.
   */
  lemma NearestStartIsDetermined(t: int, acts: seq<Activity>, others: seq<Activity>, tol: int,
                                 r: Option<Activity>, q: Option<Activity>)
    requires forall a :: a in acts <==> a in others
    requires IsNearestWithin(t, acts, tol, r) && IsNearestWithin(t, others, tol, q)
    requires r.Some? ==> forall b :: b in acts && Dist(t, b.start) == Dist(t, r.value.start) ==> r.value.start <= b.start
    requires q.Some? ==> forall b :: b in others && Dist(t, b.start) == Dist(t, q.value.start) ==> q.value.start <= b.start
    ensures r.Some? <==> q.Some?
    ensures r.Some? ==> r.value.start == q.value.start
  {
    if r.Some? && q.Some? {
      assert Dist(t, r.value.start) == Dist(t, q.value.start);
    }
  }

  /**
   * On tables whose keys are ascending, possibly with repeats, the join as
   * written and the sorted join both succeed, with the same number of rows;
   * at every row the trip keys agree, and either both rows have no activity
   * or both have one starting at the same instant. Only rows with equal
   * keys may be ordered differently.
   */
  lemma AsWrittenKeysAgreeWhenSorted(gtRows: seq<Row>, obaRows: seq<Row>, tol: int)
    requires tol >= 0 && Keyed(gtRows) && Keyed(obaRows)
    requires SortedBy(AsTrips(gtRows), TripKey) && SortedBy(AsActivities(obaRows), StartKey)
    ensures MatchAsWritten(gtRows, obaRows, tol).Success? && Match(gtRows, obaRows, tol).Success?
    ensures var w, r := MatchAsWritten(gtRows, obaRows, tol).value, Match(gtRows, obaRows, tol).value;
            && |w| == |r| == |gtRows|
            && forall i :: 0 <= i < |w| ==>
                 && w[i].trip.closestTime == r[i].trip.closestTime
                 && (w[i].activity.Some? <==> r[i].activity.Some?)
                 && (w[i].activity.Some? ==> w[i].activity.value.start == r[i].activity.value.start)
  {
    var trips, acts := AsTrips(gtRows), AsActivities(obaRows);
    var sortedTrips, sortedActs := SortBy(trips, TripKey), SortBy(acts, StartKey);
    SortByOfSorted(trips, TripKey);
    SortByMembers(acts, StartKey);
    var w, r := MatchAsWritten(gtRows, obaRows, tol).value, Match(gtRows, obaRows, tol).value;
    forall i | 0 <= i < |w|
      ensures && w[i].trip.closestTime == r[i].trip.closestTime
              && (w[i].activity.Some? <==> r[i].activity.Some?)
              && (w[i].activity.Some? ==> w[i].activity.value.start == r[i].activity.value.start)
    {
      var t := trips[i].closestTime;
      assert TripKey(sortedTrips[i]) == TripKey(trips[i]);
      NearestIsNearestWithin(t, acts, tol);
      NearestIsNearestWithin(t, sortedActs, tol);
      NearestStartIsDetermined(t, acts, sortedActs, tol, Nearest(t, acts, tol), Nearest(t, sortedActs, tol));
    }
  }

  /** Trips of a single collector form one slice, the whole of it. */
  lemma OnlyCollector(trips: seq<Trip>, c: string)
    requires trips != [] && forall t :: t in trips ==> t.collector == Some(c)
    ensures Collectors(trips) == [Some(c)]
    ensures CollectorSlice(trips, Some(c)) == trips
  {
    var keys := seq(|trips|, i requires 0 <= i < |trips| => trips[i].collector);
    forall x | x in keys ensures x == Some(c) {
      var i :| 0 <= i < |keys| && keys[i] == x;
      assert trips[i] in trips;
    }
    UniqueOfConstant(keys, Some(c));
    FilterKeepsAll(trips, OfCollector(Some(c)));
  }

  /** Activities of a single user form one slice, the whole of it. */
  lemma OnlyUser(acts: seq<Activity>, u: string)
    requires acts != [] && forall a :: a in acts ==> a.userId == Some(u)
    ensures Users(acts) == [Some(u)]
    ensures UserSlice(acts, Some(u)) == acts
  {
    var ids := seq(|acts|, i requires 0 <= i < |acts| => acts[i].userId);
    forall x | x in ids ensures x == Some(u) {
      var i :| 0 <= i < |ids| && ids[i] == x;
      assert acts[i] in acts;
    }
    UniqueOfConstant(ids, Some(u));
    FilterKeepsAll(acts, OfUser(Some(u)));
  }

  /**
   * With one collector and one user the grouped merge is the sorted single
   * join: the single join is the grouped merge's only pass.
   */
  lemma OneGroupIsGroupedMerge(trips: seq<Trip>, acts: seq<Activity>, c: string, u: string, tol: int)
    requires trips != [] && acts != [] && tol >= 0
    requires forall t :: t in trips ==> t.collector == Some(c)
    requires forall a :: a in acts ==> a.userId == Some(u)
    ensures MergeSpec(trips, acts, tol) == AsofJoin(SortBy(trips, TripKey), SortBy(acts, StartKey), tol)
  {
    OnlyCollector(trips, c);
    OnlyUser(acts, u);
    OnePass(trips, acts, Some(c), Some(u), tol);
  }
}
