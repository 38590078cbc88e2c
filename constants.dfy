/**
 * Default thresholds, the matching tolerance and the column schemas of the
 * ground-truth (GT) trip log and the OBA activity export, with the facts
 * about them that the preprocessing and the merged layout rely on.
 */
module Constants {
  import opened Common

  /** Default minimum activity duration, in minutes. */
  const MIN_ACTIVITY_DURATION: int := 2
  /** Default minimum origin-destination distance of a trip, in meters. */
  const MIN_TRIP_LENGTH: int := 20
  /** Default largest tolerated GT/OBA start-time difference, in milliseconds. */
  const TOLERANCE: int := 3600000
  /** Step of the tolerance sweep, in milliseconds (the name says seconds). */
  const CALCULATE_EVERY_N_SECS: int := 30000

  // Column names the matching logic reads or writes.
  const ACTIVITY_START := "Activity Start Date and Time* (UTC)"
  const ORIGIN_TIME := "Origin location Date and Time (*best) (UTC)"
  const DESTINATION_TIME := "Destination Location Date and Time (*best) (UTC)"
  const DURATION := "Duration* (minutes)"
  const DISTANCE := "Origin-Destination Bird-Eye Distance* (meters)"
  const USER_ID := "User ID"
  const GT_COLLECTOR := "GT_Collector"
  const GT_DATE := "GT_Date"
  const GT_TIME_ORIG := "GT_TimeOrig"
  const GT_TIME_DEST := "GT_TimeDest"
  const GT_TIME_ZONE := "GT_TimeZone"
  const GT_DATE_TIME_COMBINED := "GT_DateTimeCombined"
  const CLOSEST_TIME := "ClosestTime"

  /** OBA columns in which a missing value is not allowed. */
  const OBA_RELEVANT_COLS_LIST: seq<string> :=
    [ACTIVITY_START, ORIGIN_TIME, DURATION, DISTANCE, DESTINATION_TIME]

  /** GT columns in which a missing value is not allowed. */
  const GT_RELEVANT_COLS_LIST: seq<string> := [GT_DATE, GT_TIME_ORIG, GT_TIME_DEST]

  /** Canonical order of the GT columns in the merged table. */
  const GT_NEW_COLUMNS_ORDER: seq<string> :=
    [GT_COLLECTOR, GT_DATE, GT_TIME_ORIG,
     "GT_TimeOrigMinuteRounded", GT_TIME_ZONE, "GT_LatOrig", "GT_LonOrig", "GT_LocationOrig",
     GT_TIME_DEST, "GT_TimeDestMinuteRounded", "GT_LatDest", "GT_LonDest", "GT_LocDest",
     "GT_Comments",
     GT_DATE_TIME_COMBINED, "GT_DateTimeDestCombined",
     "GT_TourID", "GT_TripID", "GT_Mode", "GT_DateTimeOrigUTC_Backup", "GT_DateTimeDestUTC"]

  /** The leading OBA columns: the activity and its start and end. */
  const OBA_LEADING_COLUMNS: seq<string> :=
    ["Google Activity", ACTIVITY_START, "Activity Destination Date and Time* (UTC)"]

  /** The OBA identifier columns. */
  const OBA_ID_COLUMNS: seq<string> :=
    ["Trip ID", USER_ID, "Device Trip ID", "Google Activity Confidence"]

  /** The four columns of GT/OBA differences computed after the merge. */
  const DIFFERENCE_COLUMNS: seq<string> :=
    ["Time_Difference", "Distance_Difference", "Time_Difference_Destination",
     "Distance_Difference_Destination"]

  /** The columns of the merged OBA layout before the trip columns. */
  const OBA_HEAD_COLUMNS: seq<string> :=
    OBA_LEADING_COLUMNS + ["Manual Assignment"] + OBA_ID_COLUMNS + DIFFERENCE_COLUMNS

  /** The trip's origin columns. */
  const OBA_ORIGIN_COLUMNS: seq<string> :=
    ["Vehicle type", "Region ID", ORIGIN_TIME, "Activity Start/Origin Time Diff* (minutes)",
     "Origin latitude (*best)", "Origin longitude (*best)",
     "Origin Horizontal Accuracy (meters) (*best)", "Origin Location Provider (*best)"]

  /** The trip's destination columns, then its duration and distance. */
  const OBA_DESTINATION_COLUMNS: seq<string> :=
    [DESTINATION_TIME, "Activity End/Destination Time Diff* (minutes)", "Destination latitude (*best)",
     "Destination longitude (*best)", "Destination Horizontal Accuracy (meters) (*best)",
     "Destination Location Provider (*best)", DURATION, DISTANCE]

  /** The chain, tour and device-state columns. */
  const OBA_DEVICE_COLUMNS: seq<string> :=
    ["Chain ID", "Chain Index", "Tour ID", "Tour Index", "Ignoring Battery Optimizations",
     "Talk Back Enabled", "Power Save Mode Enabled"]

  /** The origin fixes of the three location providers. */
  const OBA_ORIGIN_FIX_COLUMNS: seq<string> :=
    ["Origin fused Date and Time (UTC)", "Origin fused latitude", "Origin fused longitude",
     "Origin fused Horizontal Accuracy (meters)", "Origin gps Date and Time (UTC)",
     "Origin gps latitude", "Origin gps longitude", "Origin gps Horizontal Accuracy (meters)",
     "Origin network Date and Time (UTC)", "Origin network latitude", "Origin network longitude",
     "Origin network Horizontal Accuracy (meters)"]

  /** The destination fixes of the three location providers. */
  const OBA_DESTINATION_FIX_COLUMNS: seq<string> :=
    ["Destination fused Date and Time (UTC)", "Destination fused latitude", "Destination fused longitude",
     "Destination fused Horizontal Accuracy (meters)", "Destination gps Date and Time (UTC)",
     "Destination gps latitude", "Destination gps longitude",
     "Destination gps Horizontal Accuracy (meters)", "Destination network Date and Time (UTC)",
     "Destination network latitude", "Destination network longitude",
     "Destination network Horizontal Accuracy (meters)"]

  /** The OBA trip, location and device columns. */
  const OBA_TRIP_COLUMNS: seq<string> :=
    OBA_ORIGIN_COLUMNS + OBA_DESTINATION_COLUMNS + OBA_DEVICE_COLUMNS
    + OBA_ORIGIN_FIX_COLUMNS + OBA_DESTINATION_FIX_COLUMNS

  /** Canonical order of the OBA columns in the merged table. */
  const OBA_NEW_COLUMNS_ORDER: seq<string> :=
    OBA_HEAD_COLUMNS + OBA_TRIP_COLUMNS + ["GT_DateTimeOrigUTC"]

  /**
   * Canonical order of the columns of an unmatched OBA row, a list of its
   * own (written in runs: a display this long is costly to index).
   */
  const OBA_UNMATCHED_NEW_COLUMNS_ORDER: seq<string> :=
    ["Google Activity", "Activity Start Date and Time* (UTC)",
     "Activity Destination Date and Time* (UTC)",
     "Trip ID", "User ID", "Device Trip ID", "Google Activity Confidence"] +
    ["Vehicle type", "Region ID", "Origin location Date and Time (*best) (UTC)",
     "Activity Start/Origin Time Diff* (minutes)", "Origin latitude (*best)", "Origin longitude (*best)",
     "Origin Horizontal Accuracy (meters) (*best)", "Origin Location Provider (*best)",
     "Destination Location Date and Time (*best) (UTC)",
     "Activity End/Destination Time Diff* (minutes)", "Destination latitude (*best)",
     "Destination longitude (*best)", "Destination Horizontal Accuracy (meters) (*best)",
     "Destination Location Provider (*best)", "Duration* (minutes)",
     "Origin-Destination Bird-Eye Distance* (meters)"] +
    ["Chain ID", "Chain Index", "Tour ID", "Tour Index", "Ignoring Battery Optimizations",
     "Talk Back Enabled", "Power Save Mode Enabled",
     "Origin fused Date and Time (UTC)", "Origin fused latitude", "Origin fused longitude",
     "Origin fused Horizontal Accuracy (meters)", "Origin gps Date and Time (UTC)",
     "Origin gps latitude", "Origin gps longitude", "Origin gps Horizontal Accuracy (meters)",
     "Origin network Date and Time (UTC)", "Origin network latitude", "Origin network longitude",
     "Origin network Horizontal Accuracy (meters)"] +
    ["Destination fused Date and Time (UTC)", "Destination fused latitude", "Destination fused longitude",
     "Destination fused Horizontal Accuracy (meters)", "Destination gps Date and Time (UTC)",
     "Destination gps latitude", "Destination gps longitude",
     "Destination gps Horizontal Accuracy (meters)", "Destination network Date and Time (UTC)",
     "Destination network latitude", "Destination network longitude",
     "Destination network Horizontal Accuracy (meters)"]

  /** The default tolerance is a whole number of sweep steps: 120 of them. */
  lemma ToleranceSweepSteps()
    ensures TOLERANCE > 0 && TOLERANCE % CALCULATE_EVERY_N_SECS == 0
    ensures TOLERANCE / CALCULATE_EVERY_N_SECS == 120
  {
  }

  /** Every column in which a missing value is refused has a place in the merged layout. */
  lemma RelevantColumnsAreLaidOut()
    ensures forall c :: c in OBA_RELEVANT_COLS_LIST ==> c in OBA_NEW_COLUMNS_ORDER
    ensures forall c :: c in GT_RELEVANT_COLS_LIST ==> c in GT_NEW_COLUMNS_ORDER
  {
    assert OBA_NEW_COLUMNS_ORDER[1] == ACTIVITY_START;
    assert OBA_NEW_COLUMNS_ORDER[14] == ORIGIN_TIME;
    assert OBA_NEW_COLUMNS_ORDER[26] == DURATION;
    assert OBA_NEW_COLUMNS_ORDER[27] == DISTANCE;
    assert OBA_NEW_COLUMNS_ORDER[20] == DESTINATION_TIME;
    assert GT_NEW_COLUMNS_ORDER[1] == GT_DATE;
    assert GT_NEW_COLUMNS_ORDER[2] == GT_TIME_ORIG;
    assert GT_NEW_COLUMNS_ORDER[8] == GT_TIME_DEST;
  }

  /** The unmatched layout's runs are the leading, identifier and trip columns. */
  lemma UnmatchedRuns()
    ensures OBA_UNMATCHED_NEW_COLUMNS_ORDER == OBA_LEADING_COLUMNS + OBA_ID_COLUMNS + OBA_TRIP_COLUMNS
  {
    assert OBA_ORIGIN_COLUMNS + OBA_DESTINATION_COLUMNS
           == OBA_UNMATCHED_NEW_COLUMNS_ORDER[7..23];
    assert OBA_DEVICE_COLUMNS + OBA_ORIGIN_FIX_COLUMNS == OBA_UNMATCHED_NEW_COLUMNS_ORDER[23..42];
    assert OBA_DESTINATION_FIX_COLUMNS == OBA_UNMATCHED_NEW_COLUMNS_ORDER[42..];
  }

  /**
   * The layout of an unmatched OBA row is the merged OBA layout without the
   * manual assignment, the four difference columns and the GT origin time,
   * in the same relative order.
   */
  lemma UnmatchedLayout()
    ensures |OBA_NEW_COLUMNS_ORDER| == 60 && |OBA_UNMATCHED_NEW_COLUMNS_ORDER| == 54
    ensures OBA_UNMATCHED_NEW_COLUMNS_ORDER
            == OBA_NEW_COLUMNS_ORDER[..3] + OBA_NEW_COLUMNS_ORDER[4..8] + OBA_NEW_COLUMNS_ORDER[12..59]
    ensures OBA_NEW_COLUMNS_ORDER[3] == "Manual Assignment"
    ensures OBA_NEW_COLUMNS_ORDER[8..12]
            == ["Time_Difference", "Distance_Difference", "Time_Difference_Destination", "Distance_Difference_Destination"]
    ensures OBA_NEW_COLUMNS_ORDER[59] == "GT_DateTimeOrigUTC"
  {
    UnmatchedRuns();
    var head, trip := OBA_HEAD_COLUMNS, OBA_TRIP_COLUMNS;
    assert |head| == 12 && |trip| == 47;
    assert OBA_NEW_COLUMNS_ORDER[..12] == head && OBA_NEW_COLUMNS_ORDER[12..59] == trip;
    assert head[..3] == OBA_LEADING_COLUMNS && head[4..8] == OBA_ID_COLUMNS && head[8..] == DIFFERENCE_COLUMNS;
  }

  // ---------------------------------------------------------------------
  // No column name occurs twice in the merged layout
  // ---------------------------------------------------------------------

  /** A name of the GT layout's shape: at most 25 characters, starting with "GT". */
  predicate GtShaped(name: string)
  {
    2 <= |name| <= 25 && name[0] == 'G' && name[1] == 'T'
  }

  /** Every name in `names` has the GT layout's shape. */
  predicate AllGtShaped(names: seq<string>)
  {
    forall i :: 0 <= i < |names| ==> GtShaped(names[i])
  }

  /** No name in `names` has the GT layout's shape. */
  predicate NoneGtShaped(names: seq<string>)
  {
    forall i :: 0 <= i < |names| ==> !GtShaped(names[i])
  }

  lemma NoneGtShapedAppend(a: seq<string>, b: seq<string>)
    requires NoneGtShaped(a) && NoneGtShaped(b)
    ensures NoneGtShaped(a + b)
  {
    forall i | 0 <= i < |a + b| ensures !GtShaped((a + b)[i]) {
      if i < |a| { assert (a + b)[i] == a[i]; } else { assert (a + b)[i] == b[i - |a|]; }
    }
  }

  lemma ShapesDisjoint(a: seq<string>, b: seq<string>)
    requires NoneGtShaped(a) && AllGtShaped(b)
    ensures Disjoint(a, b) && Disjoint(b, a)
  {
  }

  // Facts about single runs and pairs of runs, each checked directly on the
  // literals; ColumnNamesDistinct below assembles them.

  lemma GtColumnsDistinct() ensures NoDuplicates(GT_NEW_COLUMNS_ORDER) {}
  lemma GtColumnsShaped() ensures AllGtShaped(GT_NEW_COLUMNS_ORDER) && AllGtShaped(["GT_DateTimeOrigUTC"]) {}
  lemma LeadingRunsDistinct()
    ensures NoDuplicates(OBA_HEAD_COLUMNS) && NoDuplicates(OBA_ORIGIN_COLUMNS) && NoDuplicates(OBA_DESTINATION_COLUMNS)
  {}
  lemma TrailingRunsDistinct()
    ensures NoDuplicates(OBA_DEVICE_COLUMNS) && NoDuplicates(OBA_ORIGIN_FIX_COLUMNS) && NoDuplicates(OBA_DESTINATION_FIX_COLUMNS)
  {}
  lemma OriginAfterHead() ensures Disjoint(OBA_ORIGIN_COLUMNS, OBA_HEAD_COLUMNS) {}
  lemma DestinationAfterHead() ensures Disjoint(OBA_DESTINATION_COLUMNS, OBA_HEAD_COLUMNS) {}
  lemma DeviceAfterHead() ensures Disjoint(OBA_DEVICE_COLUMNS, OBA_HEAD_COLUMNS) {}
  lemma OriginFixAfterHead() ensures Disjoint(OBA_ORIGIN_FIX_COLUMNS, OBA_HEAD_COLUMNS) {}
  lemma DestinationFixAfterHead() ensures Disjoint(OBA_DESTINATION_FIX_COLUMNS, OBA_HEAD_COLUMNS) {}
  lemma DestinationAfterOrigin() ensures Disjoint(OBA_ORIGIN_COLUMNS, OBA_DESTINATION_COLUMNS) {}
  lemma DeviceAfterOrigin() ensures Disjoint(OBA_ORIGIN_COLUMNS, OBA_DEVICE_COLUMNS) {}
  lemma OriginFixAfterOrigin() ensures Disjoint(OBA_ORIGIN_COLUMNS, OBA_ORIGIN_FIX_COLUMNS) {}
  lemma DestinationFixAfterOrigin() ensures Disjoint(OBA_ORIGIN_COLUMNS, OBA_DESTINATION_FIX_COLUMNS) {}
  lemma DeviceAfterDestination() ensures Disjoint(OBA_DESTINATION_COLUMNS, OBA_DEVICE_COLUMNS) {}
  lemma OriginFixAfterDestination() ensures Disjoint(OBA_DESTINATION_COLUMNS, OBA_ORIGIN_FIX_COLUMNS) {}
  lemma DestinationFixAfterDestination() ensures Disjoint(OBA_DESTINATION_COLUMNS, OBA_DESTINATION_FIX_COLUMNS) {}
  lemma OriginFixAfterDevice() ensures Disjoint(OBA_DEVICE_COLUMNS, OBA_ORIGIN_FIX_COLUMNS) {}
  lemma DestinationFixAfterDevice() ensures Disjoint(OBA_DEVICE_COLUMNS, OBA_DESTINATION_FIX_COLUMNS) {}
  lemma DestinationFixAfterOriginFix() ensures Disjoint(OBA_ORIGIN_FIX_COLUMNS, OBA_DESTINATION_FIX_COLUMNS) {}
  lemma LeadingRunsNotGtShaped()
    ensures NoneGtShaped(OBA_HEAD_COLUMNS) && NoneGtShaped(OBA_ORIGIN_COLUMNS) && NoneGtShaped(OBA_DESTINATION_COLUMNS)
  {}
  lemma TrailingRunsNotGtShaped()
    ensures NoneGtShaped(OBA_DEVICE_COLUMNS) && NoneGtShaped(OBA_ORIGIN_FIX_COLUMNS) && NoneGtShaped(OBA_DESTINATION_FIX_COLUMNS)
  {}
  lemma TimeKeyIsNotGtColumn() ensures Disjoint(["GT_DateTimeOrigUTC"], GT_NEW_COLUMNS_ORDER) {}

  /**
   * The merged layout names each column once: neither column list repeats a
   * name, and no GT column shares its name with an OBA column.
   */
  lemma {:induction false} ColumnNamesDistinct()
    ensures NoDuplicates(GT_NEW_COLUMNS_ORDER)
    ensures NoDuplicates(OBA_NEW_COLUMNS_ORDER)
    ensures Disjoint(GT_NEW_COLUMNS_ORDER, OBA_NEW_COLUMNS_ORDER)
  {
    var o, d, v, f, g := OBA_ORIGIN_COLUMNS, OBA_DESTINATION_COLUMNS, OBA_DEVICE_COLUMNS,
      OBA_ORIGIN_FIX_COLUMNS, OBA_DESTINATION_FIX_COLUMNS;
    var head, trip, tail := OBA_HEAD_COLUMNS, OBA_TRIP_COLUMNS, ["GT_DateTimeOrigUTC"];
    LeadingRunsDistinct(); TrailingRunsDistinct();
    DestinationAfterOrigin(); DeviceAfterOrigin(); OriginFixAfterOrigin(); DestinationFixAfterOrigin();
    DeviceAfterDestination(); OriginFixAfterDestination(); DestinationFixAfterDestination();
    OriginFixAfterDevice(); DestinationFixAfterDevice(); DestinationFixAfterOriginFix();
    // the trip runs, one after another
    NoDuplicatesAppend(o, d);
    DisjointAppend(o, d, v); NoDuplicatesAppend(o + d, v);
    DisjointAppend(o, d, f); DisjointAppend(o + d, v, f); NoDuplicatesAppend(o + d + v, f);
    DisjointAppend(o, d, g); DisjointAppend(o + d, v, g); DisjointAppend(o + d + v, f, g);
    NoDuplicatesAppend(o + d + v + f, g);
    assert trip == o + d + v + f + g;
    // the head before them
    OriginAfterHead(); DestinationAfterHead(); DeviceAfterHead(); OriginFixAfterHead(); DestinationFixAfterHead();
    DisjointAppend(o, d, head); DisjointAppend(o + d, v, head); DisjointAppend(o + d + v, f, head);
    DisjointAppend(o + d + v + f, g, head);
    NoDuplicatesAppend(head, trip);
    // the time key after them, and the GT columns beside them all
    LeadingRunsNotGtShaped(); TrailingRunsNotGtShaped(); GtColumnsShaped();
    NoneGtShapedAppend(o, d); NoneGtShapedAppend(o + d, v); NoneGtShapedAppend(o + d + v, f);
    NoneGtShapedAppend(o + d + v + f, g); NoneGtShapedAppend(head, trip);
    ShapesDisjoint(head + trip, tail);
    NoDuplicatesAppend(head + trip, tail);
    assert OBA_NEW_COLUMNS_ORDER == head + trip + tail;
    ShapesDisjoint(head + trip, GT_NEW_COLUMNS_ORDER);
    TimeKeyIsNotGtColumn();
    DisjointAppend(head + trip, tail, GT_NEW_COLUMNS_ORDER);
    GtColumnsDistinct();
  }
}
