/**
 * The grouped nearest-time merge of the ground-truth trips with the OBA
 * activities: for every collector and every user, in first-appearance
 * order, the collector's trips (ascending by key) are joined as of the
 * nearest start time of one of the user's activities (ascending by start),
 * within a tolerance in milliseconds; the passes are concatenated.
 */
module Merger {
  import opened Common
  import opened Table

  /** A preprocessed GT trip: its collector (missing when null), its UTC key and its cells. */
  datatype Trip = Trip(collector: Option<string>, closestTime: int, row: Row)

  /** A preprocessed OBA activity: its user (missing when null), its UTC start and its cells. */
  datatype Activity = Activity(userId: Option<string>, start: int, row: Row)

  /** One row of a merge: the trip, and the activity joined to it if any. */
  datatype Merged = Merged(trip: Trip, activity: Option<Activity>)

  datatype MergeError =
    | NegativeTolerance   // the join refuses a negative tolerance
    | LeftNotSorted       // the join's left keys are not ascending
    | RightNotSorted      // the join's right keys are not ascending
    | MissingUserId       // the progress report slices the user id, which fails for a null id

  function TripKey(t: Trip): int
  {
    t.closestTime
  }

  function StartKey(a: Activity): int
  {
    a.start
  }

  function Dist(a: int, b: int): nat
  {
    if a >= b then a - b else b - a
  }

  // ---------------------------------------------------------------------
  // The as-of join, direction "nearest"
  // ---------------------------------------------------------------------

  /** Index of the last activity starting at or before `t`. */
  function LastAtOrBefore(acts: seq<Activity>, t: int): (r: Option<nat>)
    ensures r.Some? ==> r.value < |acts| && acts[r.value].start <= t
    ensures r.Some? ==> forall j :: r.value < j < |acts| ==> acts[j].start > t
    ensures r.None? ==> forall j :: 0 <= j < |acts| ==> acts[j].start > t
    decreases |acts|
  {
    if acts == [] then None
    else if acts[|acts| - 1].start <= t then Some(|acts| - 1)
    else LastAtOrBefore(acts[..|acts| - 1], t)
  }

  /** Index of the first activity starting at or after `t`. */
  function FirstAtOrAfter(acts: seq<Activity>, t: int): (r: Option<nat>)
    ensures r.Some? ==> r.value < |acts| && acts[r.value].start >= t
    ensures r.Some? ==> forall j :: 0 <= j < r.value ==> acts[j].start < t
    ensures r.None? ==> forall j :: 0 <= j < |acts| ==> acts[j].start < t
    decreases |acts|
  {
    if acts == [] then None
    else match FirstAtOrAfter(acts[..|acts| - 1], t)
      case Some(i) => Some(i)
      case None => if acts[|acts| - 1].start >= t then Some(|acts| - 1) else None
  }

  /**
   * The activity joined to key `t`: the backward candidate (last start at or
   * before `t`) and the forward candidate (first start at or after `t`),
   * each only within `tol`; the nearer one wins, the backward one on a tie.
   */
  function Nearest(t: int, acts: seq<Activity>, tol: int): (r: Option<Activity>)
    ensures r.Some? ==> r.value in acts && Dist(t, r.value.start) <= tol
  {
    var back := match LastAtOrBefore(acts, t)
      case Some(b) => if t - acts[b].start <= tol then Some(acts[b]) else None
      case None => None;
    var fwd := match FirstAtOrAfter(acts, t)
      case Some(f) => if acts[f].start - t <= tol then Some(acts[f]) else None
      case None => None;
    if back.Some? && fwd.Some? then
      (if t - back.value.start <= fwd.value.start - t then back else fwd)
    else if back.Some? then back
    else fwd
  }

  /**
   * The declarative meaning of a nearest join within `tol`: no activity when
   * none lies within `tol`, otherwise one of them at the least distance.
   */
  predicate IsNearestWithin(t: int, acts: seq<Activity>, tol: int, r: Option<Activity>)
  {
    match r
    case None => forall a :: a in acts ==> Dist(t, a.start) > tol
    case Some(a) =>
      && a in acts
      && Dist(t, a.start) <= tol
      && forall b :: b in acts ==> Dist(t, a.start) <= Dist(t, b.start)
  }

  /**
   * On activities ascending by start, the join picks a nearest activity
   * within the tolerance, and on a tie between an earlier and a later start
   * it picks the earlier.
   */
  lemma NearestIsNearestWithin(t: int, acts: seq<Activity>, tol: int)
    requires SortedBy(acts, StartKey)
    ensures IsNearestWithin(t, acts, tol, Nearest(t, acts, tol))
    ensures Nearest(t, acts, tol).Some? ==>
              forall b :: b in acts && Dist(t, b.start) == Dist(t, Nearest(t, acts, tol).value.start) ==>
                Nearest(t, acts, tol).value.start <= b.start
  {
    var lb := LastAtOrBefore(acts, t);
    var ff := FirstAtOrAfter(acts, t);
    // every activity at or before `t` is no nearer than the backward candidate
    forall j | 0 <= j < |acts| && acts[j].start <= t
      ensures lb.Some? && Dist(t, acts[lb.value].start) <= Dist(t, acts[j].start)
    {
      assert lb.Some?;
      if j < lb.value {
        assert StartKey(acts[j]) <= StartKey(acts[lb.value]);
      }
    }
    // every activity at or after `t` is no nearer than the forward candidate
    forall j | 0 <= j < |acts| && acts[j].start >= t
      ensures ff.Some? && Dist(t, acts[ff.value].start) <= Dist(t, acts[j].start)
    {
      assert ff.Some?;
      if ff.value < j {
        assert StartKey(acts[ff.value]) <= StartKey(acts[j]);
      }
    }
  }

  /** The join of every trip against the same sorted activities, trips kept in order. */
  function JoinRows(trips: seq<Trip>, acts: seq<Activity>, tol: int): (r: seq<Merged>)
    ensures |r| == |trips|
  {
    seq(|trips|, i requires 0 <= i < |trips| => Merged(trips[i], Nearest(trips[i].closestTime, acts, tol)))
  }

  /** `merge_asof(left, right, direction="nearest", tolerance)` with its argument checks. */
  function AsofJoin(trips: seq<Trip>, acts: seq<Activity>, tol: int): (r: Result<seq<Merged>, MergeError>)
    ensures r.Success? <==> tol >= 0 && SortedBy(trips, TripKey) && SortedBy(acts, StartKey)
    ensures tol < 0 ==> r == Failure(NegativeTolerance)
  {
    if tol < 0 then Failure(NegativeTolerance)
    else if !SortedBy(trips, TripKey) then Failure(LeftNotSorted)
    else if !SortedBy(acts, StartKey) then Failure(RightNotSorted)
    else Success(JoinRows(trips, acts, tol))
  }

  /**
   * A successful join keeps every trip once, in order, and pairs it with a
   * nearest activity within the tolerance or with none.
   */
  lemma AsofJoinMeaning(trips: seq<Trip>, acts: seq<Activity>, tol: int)
    requires AsofJoin(trips, acts, tol).Success?
    ensures var r := AsofJoin(trips, acts, tol).value;
            && |r| == |trips|
            && forall i :: 0 <= i < |r| ==>
                 r[i].trip == trips[i] && IsNearestWithin(trips[i].closestTime, acts, tol, r[i].activity)
  {
    forall i | 0 <= i < |trips| {
      NearestIsNearestWithin(trips[i].closestTime, acts, tol);
    }
  }

  // ---------------------------------------------------------------------
  // The passes
  // ---------------------------------------------------------------------

  /** The trip test `gt_data["GT_Collector"] == collector`; a null never equals anything. */
  function OfCollector(c: Option<string>): Trip -> bool
  {
    (t: Trip) => c.Some? && t.collector == c
  }

  /** The activity test `oba_data["User ID"] == oba_user`. */
  function OfUser(u: Option<string>): Activity -> bool
  {
    (a: Activity) => u.Some? && a.userId == u
  }

  function CollectorSlice(trips: seq<Trip>, c: Option<string>): seq<Trip>
  {
    Filter(trips, OfCollector(c))
  }

  function UserSlice(acts: seq<Activity>, u: Option<string>): seq<Activity>
  {
    Filter(acts, OfUser(u))
  }

  /** The distinct collectors, in first-appearance order (`unique()`). */
  function Collectors(trips: seq<Trip>): seq<Option<string>>
  {
    Unique(seq(|trips|, i requires 0 <= i < |trips| => trips[i].collector))
  }

  /** The distinct users, in first-appearance order (`unique()`). */
  function Users(acts: seq<Activity>): seq<Option<string>>
  {
    Unique(seq(|acts|, i requires 0 <= i < |acts| => acts[i].userId))
  }

  /** Every activity's user is among the distinct users. */
  lemma UsersCoverActivities(acts: seq<Activity>)
    ensures forall a :: a in acts ==> a.userId in Users(acts)
  {
    var ids := seq(|acts|, i requires 0 <= i < |acts| => acts[i].userId);
    forall a | a in acts ensures a.userId in Users(acts) {
      var i :| 0 <= i < |acts| && acts[i] == a;
      assert ids[i] == a.userId;
    }
  }

  /** One pass: the collector's trips sorted by key joined to the user's activities sorted by start. */
  function Pass(trips: seq<Trip>, acts: seq<Activity>, c: Option<string>, u: Option<string>,
                tol: int): (r: seq<Merged>)
    ensures |r| == |CollectorSlice(trips, c)|
  {
    JoinRows(SortBy(CollectorSlice(trips, c), TripKey), SortBy(UserSlice(acts, u), StartKey), tol)
  }

  /** The passes of one collector over `users`, concatenated in order. */
  function UserPasses(trips: seq<Trip>, acts: seq<Activity>, c: Option<string>,
                      users: seq<Option<string>>, tol: int): seq<Merged>
    decreases |users|
  {
    if users == [] then []
    else UserPasses(trips, acts, c, users[..|users| - 1], tol) + Pass(trips, acts, c, users[|users| - 1], tol)
  }

  /** The passes of `collectors` (outer) and `users` (inner), concatenated in order. */
  function CollectorPasses(trips: seq<Trip>, acts: seq<Activity>, collectors: seq<Option<string>>,
                           users: seq<Option<string>>, tol: int): seq<Merged>
    decreases |collectors|
  {
    if collectors == [] then []
    else CollectorPasses(trips, acts, collectors[..|collectors| - 1], users, tol)
         + UserPasses(trips, acts, collectors[|collectors| - 1], users, tol)
  }

  /**
   * What the grouped merge returns. With no collector or no user there is
   * no pass and the result is empty; otherwise the first join rejects a
   * negative tolerance, and a null user id fails in the progress report of
   * its first pass.
   */
  function MergeSpec(trips: seq<Trip>, acts: seq<Activity>, tol: int): (r: Result<seq<Merged>, MergeError>)
    ensures trips == [] || acts == [] ==> r == Success([])
    ensures trips != [] && acts != [] ==>
              (r.Success? <==> tol >= 0 && forall a :: a in acts ==> a.userId.Some?)
    ensures trips != [] && acts != [] && tol < 0 ==> r == Failure(NegativeTolerance)
    ensures r.Failure? ==> r.error == NegativeTolerance || r.error == MissingUserId
  {
    var cs := Collectors(trips);
    var us := Users(acts);
    if cs == [] || us == [] then Success([])
    else if tol < 0 then Failure(NegativeTolerance)
    else if None in us then Failure(MissingUserId)
    else
      UsersCoverActivities(acts);
      Success(CollectorPasses(trips, acts, cs, us, tol))
  }

  lemma NoUserNoPass(trips: seq<Trip>, acts: seq<Activity>, collectors: seq<Option<string>>, tol: int)
    ensures CollectorPasses(trips, acts, collectors, [], tol) == []
    decreases |collectors|
  {
    if collectors != [] {
      NoUserNoPass(trips, acts, collectors[..|collectors| - 1], tol);
    }
  }

  /** The join of one pass fails only on a negative tolerance: both of its inputs are sorted. */
  lemma PassJoin(trips: seq<Trip>, acts: seq<Activity>, c: Option<string>, u: Option<string>, tol: int)
    ensures AsofJoin(SortBy(CollectorSlice(trips, c), TripKey), SortBy(UserSlice(acts, u), StartKey), tol)
            == if tol < 0 then Failure(NegativeTolerance) else Success(Pass(trips, acts, c, u, tol))
  {
  }

  lemma UserPassesStep(trips: seq<Trip>, acts: seq<Activity>, c: Option<string>,
                       users: seq<Option<string>>, ui: int, tol: int)
    requires 0 <= ui < |users|
    ensures UserPasses(trips, acts, c, users[..ui + 1], tol)
            == UserPasses(trips, acts, c, users[..ui], tol) + Pass(trips, acts, c, users[ui], tol)
  {
    assert users[..ui + 1][..ui] == users[..ui];
  }

  lemma CollectorPassesStep(trips: seq<Trip>, acts: seq<Activity>, collectors: seq<Option<string>>,
                            users: seq<Option<string>>, ci: int, tol: int)
    requires 0 <= ci < |collectors|
    ensures CollectorPasses(trips, acts, collectors[..ci + 1], users, tol)
            == CollectorPasses(trips, acts, collectors[..ci], users, tol)
               + UserPasses(trips, acts, collectors[ci], users, tol)
  {
    assert collectors[..ci + 1][..ci] == collectors[..ci];
  }

  /**
   * What the passes of one collector return: nothing without users; else the
   * first join rejects a negative tolerance, and a null user id fails in the
   * progress report of its pass.
   */
  function CollectorOutcome(trips: seq<Trip>, acts: seq<Activity>, c: Option<string>,
                            users: seq<Option<string>>, tol: int): Result<seq<Merged>, MergeError>
  {
    if users == [] then Success([])
    else if tol < 0 then Failure(NegativeTolerance)
    else if None in users then Failure(MissingUserId)
    else Success(UserPasses(trips, acts, c, users, tol))
  }

  /**
   * One pass of the inner loop: the collector's sorted trips joined to the
   * user's activities, sorted by start.
   */
  method JoinUser(slice: seq<Trip>, trips: seq<Trip>, acts: seq<Activity>, c: Option<string>,
                  u: Option<string>, tolerance: int)
    returns (joined: Result<seq<Merged>, MergeError>)
    requires slice == SortBy(CollectorSlice(trips, c), TripKey)
    ensures joined == if tolerance < 0 then Failure(NegativeTolerance) else Success(Pass(trips, acts, c, u, tolerance))
  {
    var userSlice := SortBy(UserSlice(acts, u), StartKey);
    joined := AsofJoin(slice, userSlice, tolerance);
    PassJoin(trips, acts, c, u, tolerance);
  }

  /** A null user id anywhere among the users, with a valid tolerance, fails the collector's passes. */
  lemma NullUserFails(trips: seq<Trip>, acts: seq<Activity>, c: Option<string>,
                      users: seq<Option<string>>, ui: int, tol: int)
    requires 0 <= ui < |users| && users[ui].None? && tol >= 0
    ensures CollectorOutcome(trips, acts, c, users, tol) == Failure(MissingUserId)
  {
    assert users[ui] in users;
  }

  /** With every user id present, the collector's passes all succeed. */
  lemma NamedUsersSucceed(trips: seq<Trip>, acts: seq<Activity>, c: Option<string>,
                          users: seq<Option<string>>, tol: int)
    requires None !in users
    requires users == [] || tol >= 0
    ensures CollectorOutcome(trips, acts, c, users, tol) == Success(UserPasses(trips, acts, c, users, tol))
  {
  }

  /** The inner loop of the grouped merge: one collector's trips joined to each user's activities. */
  method MergeCollector(trips: seq<Trip>, acts: seq<Activity>, c: Option<string>,
                        users: seq<Option<string>>, tolerance: int)
    returns (r: Result<seq<Merged>, MergeError>)
    ensures r == CollectorOutcome(trips, acts, c, users, tolerance)
  {
    var slice := SortBy(CollectorSlice(trips, c), TripKey);
    var merged: seq<Merged> := [];
    for ui := 0 to |users|
      invariant merged == UserPasses(trips, acts, c, users[..ui], tolerance)
      invariant ui > 0 ==> tolerance >= 0
      invariant None !in users[..ui]
    {
      var u := users[ui];
      var joined := JoinUser(slice, trips, acts, c, u, tolerance);
      if joined.Failure? {
        return joined;
      }
      UserPassesStep(trips, acts, c, users, ui, tolerance);
      merged := merged + joined.value;
      if u.None? {
        NullUserFails(trips, acts, c, users, ui, tolerance);
        return Failure(MissingUserId);
      }
    }
    assert users[..|users|] == users;
    NamedUsersSucceed(trips, acts, c, users, tolerance);
    r := Success(merged);
  }

  /** One collector and one user make a single pass. */
  lemma OnePass(trips: seq<Trip>, acts: seq<Activity>, c: Option<string>, u: Option<string>, tol: int)
    ensures CollectorPasses(trips, acts, [c], [u], tol) == Pass(trips, acts, c, u, tol)
  {
    assert [c][..0] == [] && [u][..0] == [];
    assert UserPasses(trips, acts, c, [u], tol) == UserPasses(trips, acts, c, [], tol) + Pass(trips, acts, c, u, tol);
  }

  /** The grouped merge: a loop over the collectors, growing the result pass by pass. */
  method Merge(trips: seq<Trip>, acts: seq<Activity>, tolerance: int) returns (r: Result<seq<Merged>, MergeError>)
    ensures r == MergeSpec(trips, acts, tolerance)
  {
    var collectors := Collectors(trips);
    var users := Users(acts);
    var merged: seq<Merged> := [];
    for ci := 0 to |collectors|
      invariant merged == CollectorPasses(trips, acts, collectors[..ci], users, tolerance)
      invariant ci > 0 && users != [] ==> tolerance >= 0 && None !in users
    {
      var passes := MergeCollector(trips, acts, collectors[ci], users, tolerance);
      if passes.Failure? {
        return passes;
      }
      CollectorPassesStep(trips, acts, collectors, users, ci, tolerance);
      merged := merged + passes.value;
    }
    assert collectors[..|collectors|] == collectors;
    if users == [] {
      NoUserNoPass(trips, acts, collectors, tolerance);
    }
    r := Success(merged);
  }

  // ---------------------------------------------------------------------
  // What one pass produces
  // ---------------------------------------------------------------------

  /** The trip column of a merge. */
  function TripsOf(ms: seq<Merged>): (r: seq<Trip>)
    ensures |r| == |ms|
    ensures forall i :: 0 <= i < |ms| ==> r[i] == ms[i].trip
  {
    seq(|ms|, i requires 0 <= i < |ms| => ms[i].trip)
  }

  /**
   * A pass emits each trip of its collector exactly once, ascending by key,
   * and no trip of another collector.
   */
  lemma PassTrips(trips: seq<Trip>, acts: seq<Activity>, c: Option<string>, u: Option<string>, tol: int)
    ensures var p := TripsOf(Pass(trips, acts, c, u, tol));
            && SortedBy(p, TripKey)
            && multiset(p) == multiset(CollectorSlice(trips, c))
            && forall i :: 0 <= i < |p| ==> p[i] in trips && c.Some? && p[i].collector == c
  {
    var slice := CollectorSlice(trips, c);
    var p := TripsOf(Pass(trips, acts, c, u, tol));
    assert p == SortBy(slice, TripKey);
    SortByMembers(slice, TripKey);
    forall i | 0 <= i < |p| ensures p[i] in trips && c.Some? && p[i].collector == c {
      assert p[i] in slice;
      assert OfCollector(c)(p[i]);
    }
  }

  /**
   * Every row of a pass holds either no activity, when no activity of the
   * pass's user lies within the tolerance, or an activity of that user at
   * the least distance from the trip's key.
   */
  lemma PassMatches(trips: seq<Trip>, acts: seq<Activity>, c: Option<string>, u: Option<string>, tol: int)
    ensures var p := Pass(trips, acts, c, u, tol);
            forall i :: 0 <= i < |p| ==>
              && IsNearestWithin(p[i].trip.closestTime, UserSlice(acts, u), tol, p[i].activity)
              && (p[i].activity.Some? ==> p[i].activity.value in acts && u.Some? && p[i].activity.value.userId == u)
  {
    var p := Pass(trips, acts, c, u, tol);
    var sorted := SortBy(UserSlice(acts, u), StartKey);
    SortByMembers(UserSlice(acts, u), StartKey);
    forall i | 0 <= i < |p|
      ensures IsNearestWithin(p[i].trip.closestTime, UserSlice(acts, u), tol, p[i].activity)
      ensures p[i].activity.Some? ==> p[i].activity.value in acts && u.Some? && p[i].activity.value.userId == u
    {
      var t := p[i].trip.closestTime;
      NearestIsNearestWithin(t, sorted, tol);
      assert p[i].activity == Nearest(t, sorted, tol);
      if p[i].activity.Some? {
        assert p[i].activity.value in UserSlice(acts, u);
        assert OfUser(u)(p[i].activity.value);
      }
    }
  }

  /** Raising the tolerance keeps every match of a pass, with an activity at least as near. */
  lemma PassToleranceMonotone(trips: seq<Trip>, acts: seq<Activity>, c: Option<string>, u: Option<string>,
                              tol1: int, tol2: int)
    requires tol1 <= tol2
    ensures var p1 := Pass(trips, acts, c, u, tol1);
            var p2 := Pass(trips, acts, c, u, tol2);
            forall i :: 0 <= i < |p1| ==>
              && p2[i].trip == p1[i].trip
              && (p1[i].activity.Some? ==>
                    && p2[i].activity.Some?
                    && Dist(p1[i].trip.closestTime, p2[i].activity.value.start)
                       <= Dist(p1[i].trip.closestTime, p1[i].activity.value.start))
  {
    var p1 := Pass(trips, acts, c, u, tol1);
    var p2 := Pass(trips, acts, c, u, tol2);
    var sorted := SortBy(UserSlice(acts, u), StartKey);
    forall i | 0 <= i < |p1| && p1[i].activity.Some?
      ensures p2[i].activity.Some?
      ensures Dist(p1[i].trip.closestTime, p2[i].activity.value.start)
              <= Dist(p1[i].trip.closestTime, p1[i].activity.value.start)
    {
      var t := p1[i].trip.closestTime;
      NearestIsNearestWithin(t, sorted, tol1);
      NearestIsNearestWithin(t, sorted, tol2);
      assert p1[i].activity == Nearest(t, sorted, tol1);
      assert p2[i].activity == Nearest(t, sorted, tol2);
    }
  }

  /** The progress report of a pass: rows matched to the user, out of rows of the collector. */
  function PassReport(p: seq<Merged>, c: Option<string>, u: Option<string>): (counts: (nat, nat))
    ensures counts.0 <= |p| && counts.1 <= |p|
  {
    (|Filter(p, (m: Merged) => m.activity.Some? && m.activity.value.userId == u)|,
     |Filter(p, (m: Merged) => m.trip.collector == c)|)
  }

  /**
   * The report counts every row of the pass as the collector's, and the
   * matches as the trips of the collector that have an activity of the user
   * within the tolerance, which are never more.
   */
  lemma PassReportCounts(trips: seq<Trip>, acts: seq<Activity>, c: Option<string>, u: Option<string>, tol: int)
    ensures var p := Pass(trips, acts, c, u, tol);
            var (matches, total) := PassReport(p, c, u);
            && total == |p| == |CollectorSlice(trips, c)|
            && matches == |Filter(p, (m: Merged) => m.activity.Some?)|
            && matches <= total
  {
    var p := Pass(trips, acts, c, u, tol);
    PassTrips(trips, acts, c, u, tol);
    PassMatches(trips, acts, c, u, tol);
    assert forall m :: m in p ==> m.trip.collector == c by {
      forall m | m in p ensures m.trip.collector == c {
        var i :| 0 <= i < |p| && p[i] == m;
        assert TripsOf(p)[i] == m.trip;
      }
    }
    FilterKeepsAll(p, (m: Merged) => m.trip.collector == c);
    FilterCongruent(p, (m: Merged) => m.activity.Some? && m.activity.value.userId == u,
                    (m: Merged) => m.activity.Some?);
  }

  // ---------------------------------------------------------------------
  // What the whole merge produces
  // ---------------------------------------------------------------------

  /** The total size of the slices of `collectors`. */
  function SliceTotal(trips: seq<Trip>, collectors: seq<Option<string>>): nat
    decreases |collectors|
  {
    if collectors == [] then 0
    else SliceTotal(trips, collectors[..|collectors| - 1]) + |CollectorSlice(trips, collectors[|collectors| - 1])|
  }

  /** The trip test "has a collector, and it is one of `collectors`". */
  function InCollectors(collectors: seq<Option<string>>): Trip -> bool
  {
    (t: Trip) => t.collector.Some? && t.collector in collectors
  }

  /** The trip test `GT_Collector` is not null. */
  function HasCollector(): Trip -> bool
  {
    (t: Trip) => t.collector.Some?
  }

  lemma MulSucc(n: nat, k: nat)
    ensures (n + 1) * k == n * k + k
  {
  }

  /** Two parts of `n` rows per element of `a` and of `b` elements make `n` rows per element of both. */
  lemma LengthOfParts(x: nat, y: nat, n: nat, a: nat, b: nat, total: nat)
    requires x == n * a && y == n * b && total == a + b
    ensures x + y == n * total
  {
  }

  lemma {:induction false} UserPassesLength(trips: seq<Trip>, acts: seq<Activity>, c: Option<string>,
                                            users: seq<Option<string>>, tol: int)
    ensures |UserPasses(trips, acts, c, users, tol)| == |users| * |CollectorSlice(trips, c)|
    decreases |users|
  {
    if users != [] {
      UserPassesLength(trips, acts, c, users[..|users| - 1], tol);
      MulSucc(|users| - 1, |CollectorSlice(trips, c)|);
    }
  }

  lemma {:induction false} CollectorPassesLength(trips: seq<Trip>, acts: seq<Activity>,
                                                 collectors: seq<Option<string>>, users: seq<Option<string>>,
                                                 tol: int)
    ensures |CollectorPasses(trips, acts, collectors, users, tol)| == |users| * SliceTotal(trips, collectors)
    decreases |collectors|
  {
    if collectors != [] {
      var init := collectors[..|collectors| - 1];
      var c := collectors[|collectors| - 1];
      var n, a, b := |users|, SliceTotal(trips, init), |CollectorSlice(trips, c)|;
      var front := CollectorPasses(trips, acts, init, users, tol);
      var back := UserPasses(trips, acts, c, users, tol);
      assert |front| == n * a by {
        CollectorPassesLength(trips, acts, init, users, tol);
      }
      assert |back| == n * b by {
        UserPassesLength(trips, acts, c, users, tol);
      }
      assert CollectorPasses(trips, acts, collectors, users, tol) == front + back;
      assert SliceTotal(trips, collectors) == a + b;
      LengthOfParts(|front|, |back|, n, a, b, SliceTotal(trips, collectors));
    }
  }

  /** Distinct collectors have disjoint slices, which together hold the trips of any of them. */
  lemma {:induction false} SliceTotalCounts(trips: seq<Trip>, collectors: seq<Option<string>>)
    requires NoDuplicates(collectors)
    ensures SliceTotal(trips, collectors) == |Filter(trips, InCollectors(collectors))|
    decreases |collectors|
  {
    if collectors == [] {
      FilterKeepsNone(trips, InCollectors(collectors));
    } else {
      var init := collectors[..|collectors| - 1];
      var c := collectors[|collectors| - 1];
      assert collectors == init + [c];
      assert c !in init;
      SliceTotalCounts(trips, init);
      FilterLengthSplit(trips, InCollectors(init), OfCollector(c), InCollectors(collectors));
    }
  }

  /**
   * The grouped merge emits every trip with a collector once per distinct
   * user: a trip with a null collector belongs to no slice.
   */
  lemma MergeLength(trips: seq<Trip>, acts: seq<Activity>, tol: int)
    requires MergeSpec(trips, acts, tol).Success?
    ensures |MergeSpec(trips, acts, tol).value| == |Users(acts)| * |Filter(trips, HasCollector())|
  {
    var cs := Collectors(trips);
    var us := Users(acts);
    var keys := seq(|trips|, i requires 0 <= i < |trips| => trips[i].collector);
    assert forall t :: t in trips ==> t.collector in cs by {
      forall t | t in trips ensures t.collector in cs {
        var i :| 0 <= i < |trips| && trips[i] == t;
        assert keys[i] == t.collector;
      }
    }
    FilterCongruent(trips, InCollectors(cs), HasCollector());
    SliceTotalCounts(trips, cs);
    if cs != [] && us != [] {
      CollectorPassesLength(trips, acts, cs, us, tol);
    }
  }

  /** When every trip has a collector, the merge has one row per trip and distinct user. */
  lemma MergeLengthAllCollected(trips: seq<Trip>, acts: seq<Activity>, tol: int)
    requires MergeSpec(trips, acts, tol).Success?
    requires forall t :: t in trips ==> t.collector.Some?
    ensures |MergeSpec(trips, acts, tol).value| == |Users(acts)| * |trips|
  {
    MergeLength(trips, acts, tol);
    FilterKeepsAll(trips, HasCollector());
  }

  /**
   * What holds of every row of the merge: its trip is an input trip with a
   * collector, and a joined activity is an input activity of a non-null
   * user, within the tolerance, and no farther than any other activity of
   * the same user.
   */
  predicate RowWellMatched(trips: seq<Trip>, acts: seq<Activity>, tol: int, m: Merged)
  {
    && m.trip in trips
    && m.trip.collector.Some?
    && (m.activity.Some? ==>
          var a := m.activity.value;
          && a in acts
          && a.userId.Some?
          && Dist(m.trip.closestTime, a.start) <= tol
          && forall b :: b in acts && b.userId == a.userId ==>
               Dist(m.trip.closestTime, a.start) <= Dist(m.trip.closestTime, b.start))
  }

  lemma PassRowsWellMatched(trips: seq<Trip>, acts: seq<Activity>, c: Option<string>, u: Option<string>, tol: int)
    ensures forall m :: m in Pass(trips, acts, c, u, tol) ==> RowWellMatched(trips, acts, tol, m)
  {
    var p := Pass(trips, acts, c, u, tol);
    PassTrips(trips, acts, c, u, tol);
    PassMatches(trips, acts, c, u, tol);
    forall m | m in p ensures RowWellMatched(trips, acts, tol, m) {
      var i :| 0 <= i < |p| && p[i] == m;
      assert TripsOf(p)[i] == m.trip;
      if m.activity.Some? {
        var a := m.activity.value;
        forall b | b in acts && b.userId == a.userId
          ensures Dist(m.trip.closestTime, a.start) <= Dist(m.trip.closestTime, b.start)
        {
          assert OfUser(u)(b);
          assert b in UserSlice(acts, u);
        }
      }
    }
  }

  lemma {:induction false} UserPassesWellMatched(trips: seq<Trip>, acts: seq<Activity>, c: Option<string>,
                                                 users: seq<Option<string>>, tol: int)
    ensures forall m :: m in UserPasses(trips, acts, c, users, tol) ==> RowWellMatched(trips, acts, tol, m)
    decreases |users|
  {
    if users != [] {
      UserPassesWellMatched(trips, acts, c, users[..|users| - 1], tol);
      PassRowsWellMatched(trips, acts, c, users[|users| - 1], tol);
    }
  }

  lemma {:induction false} CollectorPassesWellMatched(trips: seq<Trip>, acts: seq<Activity>,
                                                      collectors: seq<Option<string>>,
                                                      users: seq<Option<string>>, tol: int)
    ensures forall m :: m in CollectorPasses(trips, acts, collectors, users, tol) ==> RowWellMatched(trips, acts, tol, m)
    decreases |collectors|
  {
    if collectors != [] {
      CollectorPassesWellMatched(trips, acts, collectors[..|collectors| - 1], users, tol);
      UserPassesWellMatched(trips, acts, collectors[|collectors| - 1], users, tol);
    }
  }

  /** Every row of a successful grouped merge is well matched. */
  lemma MergeRowsWellMatched(trips: seq<Trip>, acts: seq<Activity>, tol: int)
    requires MergeSpec(trips, acts, tol).Success?
    ensures forall m :: m in MergeSpec(trips, acts, tol).value ==> RowWellMatched(trips, acts, tol, m)
  {
    CollectorPassesWellMatched(trips, acts, Collectors(trips), Users(acts), tol);
  }

  // ---------------------------------------------------------------------
  // Time_Difference
  // ---------------------------------------------------------------------

  /**
   * `(ClosestTime - Activity Start) / 1 second`: the signed GT-minus-OBA
   * difference in seconds, missing on a row without an activity.
   */
  function TimeDifference(m: Merged): (d: Option<real>)
    ensures d.Some? <==> m.activity.Some?
    ensures d.Some? ==> d.value * 1000.0 == (m.trip.closestTime - m.activity.value.start) as real
  {
    match m.activity
    case None => None
    case Some(a) => Some((m.trip.closestTime - a.start) as real / 1000.0)
  }

  /**
   * On a row of the merge the time difference is missing exactly when no
   * activity was joined, and otherwise lies within the tolerance in
   * seconds, positive when the trip started after the activity.
   */
  lemma TimeDifferenceBounded(trips: seq<Trip>, acts: seq<Activity>, tol: int, m: Merged)
    requires RowWellMatched(trips, acts, tol, m)
    ensures var d := TimeDifference(m);
            d.Some? ==>
              && -(tol as real) / 1000.0 <= d.value <= (tol as real) / 1000.0
              && (d.value > 0.0 <==> m.trip.closestTime > m.activity.value.start)
  {
  }

  // ---------------------------------------------------------------------
  // A worked example
  // ---------------------------------------------------------------------

  /**
   * Two trips of one collector, 10 minutes apart, and one activity of one
   * user in between: with a 1-hour tolerance both trips are joined to that
   * same activity, at -5 and +5 minutes.
   */
  lemma SharedActivityExample()
    ensures var t1 := Trip(Some("ana"), 0, map[]);
            var t2 := Trip(Some("ana"), 600000, map[]);
            var a := Activity(Some("u1"), 300000, map[]);
            var p := JoinRows([t1, t2], [a], 3600000);
            && p == [Merged(t1, Some(a)), Merged(t2, Some(a))]
            && TimeDifference(p[0]) == Some(-300.0)
            && TimeDifference(p[1]) == Some(300.0)
  {
    var t1 := Trip(Some("ana"), 0, map[]);
    var t2 := Trip(Some("ana"), 600000, map[]);
    var a := Activity(Some("u1"), 300000, map[]);
    assert LastAtOrBefore([a], 0) == None;
    assert FirstAtOrAfter([a], 0) == Some(0);
    assert LastAtOrBefore([a], 600000) == Some(0);
  }
}
