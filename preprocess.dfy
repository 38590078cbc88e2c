/**
 * The preprocessing of the two inputs of the single-pass merger: the OBA
 * activity export (start times coerced to UTC instants, incomplete and
 * too-short activities dropped, a `ClosestTime` key added) and the
 * ground-truth trip log (untitled columns dropped, the origin time of day
 * repaired and parsed, incomplete trips dropped, date and time combined
 * and localized to the trip's time zone, a UTC `ClosestTime` key added).
 *
 * Each step is a function on row sequences; the methods perform the same
 * steps on `Frame` objects, in the order the source performs them, and are
 * proved to produce exactly what the functions describe.
 */
module Preprocess {
  import opened Common
  import opened Constants
  import opened Table

  // =====================================================================
  // OBA activities
  // =====================================================================

  /** The OBA columns in which a missing value drops the activity. */
  const OBA_DROPNA_SUBSET: seq<string> := [ACTIVITY_START, ORIGIN_TIME, DURATION, DISTANCE]

  /** The drop-na subset is the relevant-columns list without its destination column. */
  lemma ObaDropNaSubsetIsRelevant()
    ensures OBA_DROPNA_SUBSET == OBA_RELEVANT_COLS_LIST[..4]
  {
  }

  /**
   * `to_datetime(errors='coerce', utc=True)` on one cell. The text parser is
   * a parameter; a naive stamp is read as UTC, a localized one converted.
   */
  function CoerceInstant(c: Cell, parseInstant: string -> Option<int>): (r: Cell)
    ensures r == Null || r.Instant?
    ensures c.Text? ==> (r == Null <==> parseInstant(c.s).None?)
    ensures c.Text? && parseInstant(c.s).Some? ==> r == Instant(parseInstant(c.s).value)
    ensures c.Instant? ==> r == c
    ensures c.Stamp? ==> r == Instant(c.ms)
    ensures c.Local? ==> r == Instant(c.wall - c.offset)
    ensures c.Date? ==> r == Instant(c.day * DAY_MS)
    ensures c.Null? || c.Num? || c.Clock? ==> r == Null
  {
    match c
    case Text(s) => (match parseInstant(s) case Some(ms) => Instant(ms) case None => Null)
    case Instant(_) => c
    case Stamp(ms) => Instant(ms)
    case Local(wall, offset) => Instant(wall - offset)
    case Date(day) => Instant(day * DAY_MS)
    case _ => Null
  }

  /** The input rows after the start column is coerced in place. */
  function CoerceStarts(rows: seq<Row>, parseInstant: string -> Option<int>): (r: seq<Row>)
    ensures |r| == |rows|
  {
    MapColumn(rows, ACTIVITY_START, CoerceWith(parseInstant))
  }

  function CoerceWith(parseInstant: string -> Option<int>): Cell -> Cell
  {
    c => CoerceInstant(c, parseInstant)
  }

  /** A numeric cell at least `bound`; a missing value compares false. */
  predicate AtLeast(c: Cell, bound: real)
  {
    c.Num? && c.x >= bound
  }

  predicate MeetsThresholds(row: Row, minDuration: real, minLength: real)
  {
    AtLeast(Get(row, DURATION), minDuration) && AtLeast(Get(row, DISTANCE), minLength)
  }

  function Meets(minDuration: real, minLength: real): Row -> bool
  {
    row => MeetsThresholds(row, minDuration, minLength)
  }

  /** Whether the OBA preprocessing keeps a row whose start was already coerced. */
  predicate KeepsActivity(row: Row, minDuration: real, minLength: real)
  {
    NotNa(row, OBA_DROPNA_SUBSET) && MeetsThresholds(row, minDuration, minLength)
  }

  function Keeps(minDuration: real, minLength: real): Row -> bool
  {
    row => KeepsActivity(row, minDuration, minLength)
  }

  function Rejects(minDuration: real, minLength: real): Row -> bool
  {
    row => !KeepsActivity(row, minDuration, minLength)
  }

  /** The rows surviving the drop-na and the threshold mask, in input order. */
  function ObaKept(coerced: seq<Row>, minDuration: real, minLength: real): seq<Row>
  {
    Filter(DropNa(coerced, OBA_DROPNA_SUBSET), Meets(minDuration, minLength))
  }

  /** The merge key: a copy of the activity start. */
  function WithClosestTime(rows: seq<Row>): (r: seq<Row>)
    ensures |r| == |rows|
  {
    Assign(rows, CLOSEST_TIME, Column(rows, ACTIVITY_START))
  }

  /** The frame the OBA preprocessing returns. */
  function CleanObaRows(rows: seq<Row>, minDuration: real, minLength: real,
                        parseInstant: string -> Option<int>): (r: seq<Row>)
    ensures |r| <= |rows|
  {
    WithClosestTime(ObaKept(CoerceStarts(rows, parseInstant), minDuration, minLength))
  }

  /** The rows logged as dropped: the coerced input minus the kept rows. */
  function DroppedObaRows(rows: seq<Row>, minDuration: real, minLength: real,
                          parseInstant: string -> Option<int>): (r: seq<Row>)
    ensures |r| <= |rows|
  {
    var coerced := CoerceStarts(rows, parseInstant);
    Without(coerced, ObaKept(coerced, minDuration, minLength))
  }

  predicate IsNumeric(c: Cell)
  {
    c == Null || c.Num?
  }

  /**
   * What the OBA preprocessing demands of its frame: the drop-na columns
   * exist, and the duration and distance columns hold numbers or missing
   * values, so that the threshold comparisons are defined.
   */
  predicate ObaSchema(columns: seq<string>, rows: seq<Row>)
  {
    && WellFormed(columns, rows)
    && (forall c :: c in OBA_DROPNA_SUBSET ==> c in columns)
    && (forall row :: row in rows ==> IsNumeric(Get(row, DURATION)) && IsNumeric(Get(row, DISTANCE)))
  }

  /**
   * The OBA preprocessing on a frame. The start column of the caller's
   * frame is overwritten in place; the clean frame and the frame of dropped
   * rows are new.
   */
  method PreprocessObaData(data: Frame, minDuration: real, minLength: real,
                           parseInstant: string -> Option<int>)
    returns (clean: Frame, dropped: Frame)
    requires data.Valid() && ObaSchema(data.columns, data.rows)
    modifies data
    ensures data.Valid() && data.columns == old(data.columns)
    ensures data.rows == CoerceStarts(old(data.rows), parseInstant)
    ensures fresh(clean) && clean.Valid()
    ensures clean.columns == AddColumn(old(data.columns), CLOSEST_TIME)
    ensures clean.rows == CleanObaRows(old(data.rows), minDuration, minLength, parseInstant)
    ensures fresh(dropped) && dropped.Valid() && dropped.columns == old(data.columns)
    ensures dropped.rows == DroppedObaRows(old(data.rows), minDuration, minLength, parseInstant)
  {
    data.SetColumn(ACTIVITY_START, Mapped(data.rows, ACTIVITY_START, CoerceWith(parseInstant)));
    var kept := DropNa(data.rows, OBA_DROPNA_SUBSET);
    kept := Filter(kept, Meets(minDuration, minLength));
    dropped := new Frame(data.columns, Without(data.rows, kept));
    clean := new Frame(data.columns, kept);
    clean.SetColumn(CLOSEST_TIME, Column(clean.rows, ACTIVITY_START));
  }

  /** The two selections of the OBA preprocessing are one filter by `KeepsActivity`. */
  lemma ObaKeptIsFilter(coerced: seq<Row>, minDuration: real, minLength: real)
    ensures ObaKept(coerced, minDuration, minLength) == Filter(coerced, Keeps(minDuration, minLength))
  {
    FilterFilter(coerced, Complete(OBA_DROPNA_SUBSET), Meets(minDuration, minLength), Keeps(minDuration, minLength));
  }

  /** After coercion every start cell is an instant or missing. */
  lemma CoercedStartsAreInstants(rows: seq<Row>, parseInstant: string -> Option<int>)
    ensures forall row :: row in CoerceStarts(rows, parseInstant) ==>
              Get(row, ACTIVITY_START) == Null || Get(row, ACTIVITY_START).Instant?
  {
    var coerced := CoerceStarts(rows, parseInstant);
    forall row | row in coerced
      ensures Get(row, ACTIVITY_START) == Null || Get(row, ACTIVITY_START).Instant?
    {
      var i :| 0 <= i < |coerced| && coerced[i] == row;
      assert row == rows[i][ACTIVITY_START := CoerceInstant(Get(rows[i], ACTIVITY_START), parseInstant)];
    }
  }

  /** A row of `WithClosestTime(rows)` is a row of `rows` with its start copied to the key. */
  lemma WithClosestTimeMembers(rows: seq<Row>)
    ensures forall row :: row in WithClosestTime(rows) ==>
              exists k :: k in rows && row == k[CLOSEST_TIME := Get(k, ACTIVITY_START)]
    ensures forall k :: k in rows ==> k[CLOSEST_TIME := Get(k, ACTIVITY_START)] in WithClosestTime(rows)
  {
    var r := WithClosestTime(rows);
    var keys := Column(rows, ACTIVITY_START);
    assert forall i :: 0 <= i < |rows| ==> r[i] == rows[i][CLOSEST_TIME := keys[i]];
    assert forall i :: 0 <= i < |rows| ==> keys[i] == Get(rows[i], ACTIVITY_START);
    forall row | row in r
      ensures exists k :: k in rows && row == k[CLOSEST_TIME := Get(k, ACTIVITY_START)]
    {
      var i :| 0 <= i < |r| && r[i] == row;
      assert rows[i] in rows;
    }
    forall k | k in rows
      ensures k[CLOSEST_TIME := Get(k, ACTIVITY_START)] in r
    {
      var i :| 0 <= i < |rows| && rows[i] == k;
      assert r[i] == k[CLOSEST_TIME := Get(k, ACTIVITY_START)];
    }
  }

  /** The merge key is a new column: none of the drop-na columns. */
  lemma KeyIsNotObaColumn()
    ensures CLOSEST_TIME != ACTIVITY_START && CLOSEST_TIME != ORIGIN_TIME
    ensures CLOSEST_TIME != DURATION && CLOSEST_TIME != DISTANCE
  {
    assert |CLOSEST_TIME| == 11;
    assert |DURATION| == 19 && CLOSEST_TIME[0] != ORIGIN_TIME[0] && CLOSEST_TIME[0] != DISTANCE[0];
    assert CLOSEST_TIME[0] != ACTIVITY_START[0];
  }

  /** An activity that survives the drop-na and the thresholds has a start instant and an origin time. */
  lemma KeptActivityFacts(rows: seq<Row>, minDuration: real, minLength: real,
                          parseInstant: string -> Option<int>, k: Row)
    requires k in ObaKept(CoerceStarts(rows, parseInstant), minDuration, minLength)
    ensures Get(k, ACTIVITY_START).Instant? && Get(k, ORIGIN_TIME) != Null
    ensures MeetsThresholds(k, minDuration, minLength)
  {
    var coerced := CoerceStarts(rows, parseInstant);
    assert k in DropNa(coerced, OBA_DROPNA_SUBSET);
    assert Get(k, ACTIVITY_START) != Null && Get(k, ORIGIN_TIME) != Null by {
      NotNaByCells(k, OBA_DROPNA_SUBSET);
      assert ACTIVITY_START in OBA_DROPNA_SUBSET && ORIGIN_TIME in OBA_DROPNA_SUBSET;
    }
    CoercedStartsAreInstants(rows, parseInstant);
  }

  /**
   * Every activity in the clean OBA frame has a UTC start instant, an origin
   * time, a duration and a distance meeting the thresholds, and a merge key
   * equal to its start.
   */
  lemma CleanActivityFacts(rows: seq<Row>, minDuration: real, minLength: real,
                           parseInstant: string -> Option<int>, row: Row)
    requires row in CleanObaRows(rows, minDuration, minLength, parseInstant)
    ensures Get(row, ACTIVITY_START).Instant?
    ensures Get(row, ORIGIN_TIME) != Null
    ensures AtLeast(Get(row, DURATION), minDuration)
    ensures AtLeast(Get(row, DISTANCE), minLength)
    ensures Get(row, CLOSEST_TIME) == Get(row, ACTIVITY_START)
  {
    var kept := ObaKept(CoerceStarts(rows, parseInstant), minDuration, minLength);
    WithClosestTimeMembers(kept);
    var k :| k in kept && row == k[CLOSEST_TIME := Get(k, ACTIVITY_START)];
    KeptActivityFacts(rows, minDuration, minLength, parseInstant, k);
    KeyCopyKeepsCells(k, row);
  }

  /** Copying the start to the key leaves the start, origin, duration and distance cells as they were. */
  lemma KeyCopyKeepsCells(k: Row, row: Row)
    requires row == k[CLOSEST_TIME := Get(k, ACTIVITY_START)]
    ensures Get(row, CLOSEST_TIME) == Get(k, ACTIVITY_START)
    ensures Get(row, ACTIVITY_START) == Get(k, ACTIVITY_START) && Get(row, ORIGIN_TIME) == Get(k, ORIGIN_TIME)
    ensures Get(row, DURATION) == Get(k, DURATION) && Get(row, DISTANCE) == Get(k, DISTANCE)
  {
    KeyIsNotObaColumn();
  }

  /** An activity whose start text does not parse is logged as dropped, never kept. */
  lemma UnparseableStartIsDropped(rows: seq<Row>, minDuration: real, minLength: real,
                                  parseInstant: string -> Option<int>, i: int)
    requires 0 <= i < |rows|
    requires Get(rows[i], ACTIVITY_START).Text?
    requires parseInstant(Get(rows[i], ACTIVITY_START).s).None?
    ensures CoerceStarts(rows, parseInstant)[i] in DroppedObaRows(rows, minDuration, minLength, parseInstant)
    ensures CoerceStarts(rows, parseInstant)[i] !in ObaKept(CoerceStarts(rows, parseInstant), minDuration, minLength)
  {
    var coerced := CoerceStarts(rows, parseInstant);
    assert coerced[i][ACTIVITY_START] == Null;
    assert !NotNa(coerced[i], OBA_DROPNA_SUBSET) by {
      assert ACTIVITY_START in OBA_DROPNA_SUBSET;
    }
  }

  /**
   * The kept rows and the dropped rows split the coerced input: nothing is
   * lost, nothing is both, and the dropped rows are exactly those that fail
   * the drop-na or the thresholds.
   */
  lemma ObaPartition(rows: seq<Row>, minDuration: real, minLength: real,
                     parseInstant: string -> Option<int>)
    ensures var coerced := CoerceStarts(rows, parseInstant);
            multiset(ObaKept(coerced, minDuration, minLength))
              + multiset(DroppedObaRows(rows, minDuration, minLength, parseInstant))
            == multiset(coerced)
    ensures DroppedObaRows(rows, minDuration, minLength, parseInstant)
            == Filter(CoerceStarts(rows, parseInstant), Rejects(minDuration, minLength))
    ensures |CleanObaRows(rows, minDuration, minLength, parseInstant)|
              + |DroppedObaRows(rows, minDuration, minLength, parseInstant)| == |rows|
  {
    var coerced := CoerceStarts(rows, parseInstant);
    ObaKeptIsFilter(coerced, minDuration, minLength);
    ComplementOfFilter(coerced, Keeps(minDuration, minLength), Rejects(minDuration, minLength));
    FilterPartition(coerced, Keeps(minDuration, minLength), Rejects(minDuration, minLength));
    assert |multiset(coerced)| == |rows|;
  }

  /** The kept activities keep their relative input order. */
  lemma ObaKeptIsSubsequence(rows: seq<Row>, minDuration: real, minLength: real,
                             parseInstant: string -> Option<int>)
    ensures var coerced := CoerceStarts(rows, parseInstant);
            IsSubsequence(ObaKept(coerced, minDuration, minLength), coerced)
  {
    var coerced := CoerceStarts(rows, parseInstant);
    ObaKeptIsFilter(coerced, minDuration, minLength);
    FilterIsSubsequence(coerced, Keeps(minDuration, minLength));
  }

  /** Coercion leaves a start column that already holds instants unchanged. */
  lemma CoercionFixesInstants(rows: seq<Row>, parseInstant: string -> Option<int>)
    requires forall row :: row in rows ==> Get(row, ACTIVITY_START).Instant?
    ensures CoerceStarts(rows, parseInstant) == rows
  {
    var coerced := CoerceStarts(rows, parseInstant);
    var starts := Mapped(rows, ACTIVITY_START, CoerceWith(parseInstant));
    forall i | 0 <= i < |rows| ensures coerced[i] == rows[i] {
      assert rows[i] in rows;
      assert starts[i] == rows[i][ACTIVITY_START];
      assert coerced[i] == rows[i][ACTIVITY_START := starts[i]];
    }
  }

  /** Copying the start to the key changes nothing when the key already equals the start. */
  lemma ClosestTimeFixed(rows: seq<Row>)
    requires forall row :: row in rows ==> CLOSEST_TIME in row && row[CLOSEST_TIME] == Get(row, ACTIVITY_START)
    ensures WithClosestTime(rows) == rows
  {
    var again := WithClosestTime(rows);
    var keys := Column(rows, ACTIVITY_START);
    forall i | 0 <= i < |rows| ensures again[i] == rows[i] {
      assert rows[i] in rows;
      assert keys[i] == rows[i][CLOSEST_TIME];
      assert again[i] == rows[i][CLOSEST_TIME := keys[i]];
    }
  }

  /** Preprocessing a clean OBA frame again changes nothing and drops nothing. */
  lemma ObaPreprocessIdempotent(rows: seq<Row>, minDuration: real, minLength: real,
                                parseInstant: string -> Option<int>)
    ensures var clean := CleanObaRows(rows, minDuration, minLength, parseInstant);
            CleanObaRows(clean, minDuration, minLength, parseInstant) == clean
    ensures var clean := CleanObaRows(rows, minDuration, minLength, parseInstant);
            DroppedObaRows(clean, minDuration, minLength, parseInstant) == []
  {
    var clean := CleanObaRows(rows, minDuration, minLength, parseInstant);
    forall row | row in clean
      ensures KeepsActivity(row, minDuration, minLength)
      ensures Get(row, ACTIVITY_START).Instant?
      ensures CLOSEST_TIME in row && row[CLOSEST_TIME] == Get(row, ACTIVITY_START)
    {
      CleanActivityFacts(rows, minDuration, minLength, parseInstant, row);
      assert Get(row, ORIGIN_TIME) != Null;
    }
    CoercionFixesInstants(clean, parseInstant);
    ObaKeptIsFilter(clean, minDuration, minLength);
    FilterKeepsAll(clean, Keeps(minDuration, minLength));
    ClosestTimeFixed(clean);
    WithoutAll(clean);
  }

  /**
   * Raising the thresholds only removes activities: every activity kept
   * under the stricter thresholds is kept under the looser ones.
   */
  lemma ThresholdsMonotone(rows: seq<Row>, d1: real, l1: real, d2: real, l2: real,
                           parseInstant: string -> Option<int>)
    requires d2 <= d1 && l2 <= l1
    ensures forall row :: row in CleanObaRows(rows, d1, l1, parseInstant) ==>
              row in CleanObaRows(rows, d2, l2, parseInstant)
    ensures |CleanObaRows(rows, d1, l1, parseInstant)| <= |CleanObaRows(rows, d2, l2, parseInstant)|
  {
    var coerced := CoerceStarts(rows, parseInstant);
    var strict := ObaKept(coerced, d1, l1);
    var loose := ObaKept(coerced, d2, l2);
    var na := DropNa(coerced, OBA_DROPNA_SUBSET);
    FilterFilter(na, Meets(d2, l2), Meets(d1, l1), Meets(d1, l1));
    assert strict == Filter(loose, Meets(d1, l1));
    WithClosestTimeMembers(strict);
    WithClosestTimeMembers(loose);
  }

  /**
   * An activity kept under five minutes and fifty meters is also kept under
   * the default thresholds of two minutes and twenty meters.
   */
  lemma DefaultThresholdsKeepStricterRows(rows: seq<Row>, parseInstant: string -> Option<int>)
    ensures forall row :: row in CleanObaRows(rows, 5.0, 50.0, parseInstant) ==>
              row in CleanObaRows(rows, MIN_ACTIVITY_DURATION as real, MIN_TRIP_LENGTH as real, parseInstant)
  {
    ThresholdsMonotone(rows, 5.0, 50.0, MIN_ACTIVITY_DURATION as real, MIN_TRIP_LENGTH as real, parseInstant);
  }

  // =====================================================================
  // Ground-truth trips
  // =====================================================================

  /** `part` occurs in `s` starting at position `i`. */
  predicate OccursAt(s: string, part: string, i: int)
  {
    0 <= i && i + |part| <= |s| && s[i..i + |part|] == part
  }

  /** `part in s` on strings. */
  predicate Contains(s: string, part: string)
  {
    exists i :: 0 <= i <= |s| - |part| && OccursAt(s, part, i)
  }

  /** The header pandas gives a spreadsheet column without a title contains "Unnamed". */
  predicate IsUnnamed(name: string)
  {
    Contains(name, "Unnamed")
  }

  predicate IsNamed(name: string)
  {
    !IsUnnamed(name)
  }

  lemma WithoutCapitalUIsNamed(name: string)
    requires 'U' !in name
    ensures !IsUnnamed(name)
  {
    forall i | 0 <= i <= |name| - 7 ensures !OccursAt(name, "Unnamed", i) {
      assert name[i] != 'U';
      assert name[i..i + 7][0] == name[i];
    }
  }

  /** The columns the GT preprocessing reads or writes survive the drop of untitled columns. */
  lemma KeyColumnsAreNamed()
    ensures IsNamed(GT_DATE) && IsNamed(GT_TIME_ORIG) && IsNamed(GT_TIME_ZONE)
    ensures IsNamed(GT_DATE_TIME_COMBINED) && IsNamed(CLOSEST_TIME)
  {
    WithoutCapitalUIsNamed(GT_DATE);
    WithoutCapitalUIsNamed(GT_TIME_ORIG);
    WithoutCapitalUIsNamed(GT_TIME_ZONE);
    WithoutCapitalUIsNamed(GT_DATE_TIME_COMBINED);
    WithoutCapitalUIsNamed(CLOSEST_TIME);
  }

  /** The header after dropping the untitled columns. */
  function NamedColumns(columns: seq<string>): seq<string>
  {
    Filter(columns, IsNamed)
  }

  function RestrictRow(row: Row, keep: set<string>): Row
  {
    map k | k in row && k in keep :: row[k]
  }

  /** Dropping the untitled columns keeps the frame well formed. */
  lemma DropUnnamedWellFormed(columns: seq<string>, rows: seq<Row>)
    requires WellFormed(columns, rows)
    ensures WellFormed(NamedColumns(columns), DropUnnamed(columns, rows))
  {
    var keep := ColumnSet(NamedColumns(columns));
    var r := DropUnnamed(columns, rows);
    forall row | row in r ensures row.Keys == keep {
      var i :| 0 <= i < |r| && r[i] == row;
      assert rows[i] in rows;
      assert row == RestrictRow(rows[i], keep);
    }
  }

  /** The rows after dropping the untitled columns. */
  function DropUnnamed(columns: seq<string>, rows: seq<Row>): (r: seq<Row>)
    ensures |r| == |rows|
  {
    seq(|rows|, i requires 0 <= i < |rows| => RestrictRow(rows[i], ColumnSet(NamedColumns(columns))))
  }

  /** `astype(str)` on one cell: the text itself, "nan" for a missing value, else the rendering. */
  function AsText(c: Cell, render: Cell -> string): string
  {
    match c
    case Text(s) => s
    case Null => "nan"
    case _ => render(c)
  }

  function TextWith(render: Cell -> string): Cell -> Cell
  {
    c => Text(AsText(c, render))
  }

  /** `str.replace('?', '0')`: every question mark becomes a zero, nothing else changes. */
  function ReplaceQuestionMarks(s: string): (r: string)
    ensures |r| == |s|
    ensures forall i :: 0 <= i < |s| && s[i] == '?' ==> r[i] == '0'
    ensures forall i :: 0 <= i < |s| && s[i] != '?' ==> r[i] == s[i]
    ensures '?' !in r
  {
    if s == [] then []
    else [if s[0] == '?' then '0' else s[0]] + ReplaceQuestionMarks(s[1..])
  }

  /** The string method on a cell; a cell that is not text becomes missing. */
  function ReplaceCell(c: Cell): Cell
  {
    if c.Text? then Text(ReplaceQuestionMarks(c.s)) else Null
  }

  /** The texts `to_datetime` reads as a missing value. */
  const NAT_STRINGS: set<string> := {"", "NaT", "nat", "NAT", "nan", "NaN", "NAN"}

  /**
   * `to_datetime(errors='coerce').dt.time` on one cell: the time of day the
   * parser finds, or missing. The parser is a parameter.
   */
  function ParseTimeCell(c: Cell, parseTime: string -> Option<TimeOfDay>): (r: Cell)
    ensures r == Null || r.Clock?
    ensures c.Text? && c.s !in NAT_STRINGS ==>
              && (r == Null <==> parseTime(c.s).None?)
              && (parseTime(c.s).Some? ==> r == Clock(parseTime(c.s).value))
    ensures !c.Text? || c.s in NAT_STRINGS ==> r == Null
  {
    if c.Text? && c.s !in NAT_STRINGS then
      match parseTime(c.s)
      case Some(t) => Clock(t)
      case None => Null
    else Null
  }

  function ParseTimeWith(parseTime: string -> Option<TimeOfDay>): Cell -> Cell
  {
    c => ParseTimeCell(c, parseTime)
  }

  /** The GT rows after the untitled columns are dropped and the origin time is parsed. */
  function GtNormalized(columns: seq<string>, rows: seq<Row>, render: Cell -> string,
                        parseTime: string -> Option<TimeOfDay>): (r: seq<Row>)
    ensures |r| == |rows|
  {
    var named := DropUnnamed(columns, rows);
    var asText := MapColumn(named, GT_TIME_ORIG, TextWith(render));
    var repaired := MapColumn(asText, GT_TIME_ORIG, ReplaceCell);
    MapColumn(repaired, GT_TIME_ORIG, ParseTimeWith(parseTime))
  }

  /** The GT columns in which a missing value drops the trip. */
  const GT_DROPNA_SUBSET: seq<string> := [GT_DATE, GT_TIME_ORIG]

  /** The trips with a date and a parsed origin time, in input order. */
  function GtKept(columns: seq<string>, rows: seq<Row>, render: Cell -> string,
                  parseTime: string -> Option<TimeOfDay>): (r: seq<Row>)
    ensures |r| <= |rows|
  {
    DropNa(GtNormalized(columns, rows, render, parseTime), GT_DROPNA_SUBSET)
  }

  function DroppedGtRows(columns: seq<string>, rows: seq<Row>, render: Cell -> string,
                         parseTime: string -> Option<TimeOfDay>): (r: seq<Row>)
    ensures |r| <= |rows|
  {
    var normalized := GtNormalized(columns, rows, render, parseTime);
    Without(normalized, DropNa(normalized, GT_DROPNA_SUBSET))
  }

  /** The day of a date cell, or of the date part of a date-and-time cell. */
  function DayOf(c: Cell): int
  {
    match c
    case Date(day) => day
    case Stamp(ms) => ms / DAY_MS
    case _ => 0
  }

  predicate IsDate(c: Cell)
  {
    c.Date? || c.Stamp?
  }

  /** `datetime.combine(date, time)`: the naive stamp of that time on that day. */
  function CombineCells(date: Cell, time: Cell): (r: Cell)
    ensures IsDate(date) && time.Clock? ==> r.Stamp? && r.ms / DAY_MS == DayOf(date) && r.ms % DAY_MS == time.t
    ensures !(IsDate(date) && time.Clock?) ==> r == Null
  {
    if IsDate(date) && time.Clock? then Stamp(DayOf(date) * DAY_MS + time.t) else Null
  }

  function CombinedCells(rows: seq<Row>): (cells: seq<Cell>)
    ensures |cells| == |rows|
  {
    seq(|rows|, i requires 0 <= i < |rows| => CombineCells(Get(rows[i], GT_DATE), Get(rows[i], GT_TIME_ORIG)))
  }

  function WithCombined(rows: seq<Row>): (r: seq<Row>)
    ensures |r| == |rows|
  {
    Assign(rows, GT_DATE_TIME_COMBINED, CombinedCells(rows))
  }

  /** A zone cell naming a zone the time-zone database knows. */
  predicate KnownZone(c: Cell, zones: set<string>)
  {
    c.Text? && c.s in zones
  }

  predicate AllZonesKnown(rows: seq<Row>, zones: set<string>)
  {
    forall row :: row in rows ==> KnownZone(Get(row, GT_TIME_ZONE), zones)
  }

  /**
   * `timezone(zone).localize(stamp)`: the same wall-clock time with the
   * zone's UTC offset at that time (in milliseconds, a parameter).
   */
  function LocalizeCell(stamp: Cell, zone: Cell, offsetAt: (string, int) -> int): (r: Cell)
    ensures r != Null <==> stamp.Stamp? && zone.Text?
    ensures r != Null ==> r.Local? && r.wall == stamp.ms && r.offset == offsetAt(zone.s, stamp.ms)
  {
    if stamp.Stamp? && zone.Text? then Local(stamp.ms, offsetAt(zone.s, stamp.ms)) else Null
  }

  function LocalizedCells(rows: seq<Row>, offsetAt: (string, int) -> int): (cells: seq<Cell>)
    ensures |cells| == |rows|
  {
    seq(|rows|, i requires 0 <= i < |rows| =>
          LocalizeCell(Get(rows[i], GT_DATE_TIME_COMBINED), Get(rows[i], GT_TIME_ZONE), offsetAt))
  }

  function WithLocalized(rows: seq<Row>, offsetAt: (string, int) -> int): (r: seq<Row>)
    ensures |r| == |rows|
  {
    Assign(rows, GT_DATE_TIME_COMBINED, LocalizedCells(rows, offsetAt))
  }

  /** `tz_convert('UTC')`: the instant a localized wall-clock time denotes. */
  function UtcCell(c: Cell): (r: Cell)
    ensures r.Instant? <==> c.Local?
    ensures c.Local? ==> r.ms + c.offset == c.wall
    ensures !c.Local? ==> r == Null
  {
    if c.Local? then Instant(c.wall - c.offset) else Null
  }

  function WithUtcKey(rows: seq<Row>): (r: seq<Row>)
    ensures |r| == |rows|
  {
    Assign(rows, CLOSEST_TIME, Mapped(rows, GT_DATE_TIME_COMBINED, UtcCell))
  }

  /** Every kept trip's date cell is a date or a date-and-time, which `datetime.combine` accepts. */
  predicate AllDates(rows: seq<Row>)
  {
    forall row :: row in rows ==> IsDate(Get(row, GT_DATE))
  }

  /** Every trip names the same zone as the first. */
  predicate OneZone(rows: seq<Row>)
  {
    forall i :: 0 <= i < |rows| ==> Get(rows[i], GT_TIME_ZONE) == Get(rows[0], GT_TIME_ZONE)
  }

  /** Writing the combined-time column does not touch the zone column. */
  lemma ZonesSurviveAssign(rows: seq<Row>, cells: seq<Cell>, zones: set<string>)
    requires |cells| == |rows|
    ensures var r := Assign(rows, GT_DATE_TIME_COMBINED, cells);
            && (AllZonesKnown(r, zones) <==> AllZonesKnown(rows, zones))
            && (OneZone(r) <==> OneZone(rows))
  {
    WrittenColumnsDistinct();
    var r := Assign(rows, GT_DATE_TIME_COMBINED, cells);
    assert forall i :: 0 <= i < |rows| ==> r[i] == rows[i][GT_DATE_TIME_COMBINED := cells[i]];
    assert forall i :: 0 <= i < |rows| ==> Get(r[i], GT_TIME_ZONE) == Get(rows[i], GT_TIME_ZONE);
    if AllZonesKnown(rows, zones) {
      forall row | row in r ensures KnownZone(Get(row, GT_TIME_ZONE), zones) {
        var i :| 0 <= i < |r| && r[i] == row;
        assert rows[i] in rows;
      }
    }
    if AllZonesKnown(r, zones) {
      forall row | row in rows ensures KnownZone(Get(row, GT_TIME_ZONE), zones) {
        var i :| 0 <= i < |rows| && rows[i] == row;
        assert r[i] in r;
      }
    }
  }

  /** The rows of the clean GT frame, when every kept trip names a known zone. */
  function CleanGtRows(columns: seq<string>, rows: seq<Row>, render: Cell -> string,
                       parseTime: string -> Option<TimeOfDay>, offsetAt: (string, int) -> int): (r: seq<Row>)
    ensures |r| == |GtKept(columns, rows, render, parseTime)| <= |rows|
  {
    WithUtcKey(WithLocalized(WithCombined(GtKept(columns, rows, render, parseTime)), offsetAt))
  }

  /** The header of the clean GT frame. */
  function CleanGtColumns(columns: seq<string>): seq<string>
  {
    AddColumn(AddColumn(NamedColumns(columns), GT_DATE_TIME_COMBINED), CLOSEST_TIME)
  }

  datatype GtError =
    | NotADate          // `datetime.combine` refuses a kept trip's date cell that is not a date
    | UnknownTimeZone   // `pytz.timezone` refuses a kept trip's zone
    | MixedTimeZones    // kept trips in two zones leave no datetime column for `.dt.tz_convert`

  /**
   * The outcome of the GT preprocessing: the clean rows, or the first error
   * raised by the combine (line 131), the localize (line 134) or the UTC
   * conversion (line 137).
   */
  function GtOutcome(columns: seq<string>, rows: seq<Row>, render: Cell -> string,
                     parseTime: string -> Option<TimeOfDay>, zones: set<string>,
                     offsetAt: (string, int) -> int): (r: Result<seq<Row>, GtError>)
    ensures var kept := GtKept(columns, rows, render, parseTime);
            r.Success? <==> AllDates(kept) && AllZonesKnown(kept, zones) && OneZone(kept)
    ensures r.Success? ==> |r.value| == |GtKept(columns, rows, render, parseTime)|
  {
    var kept := GtKept(columns, rows, render, parseTime);
    if !AllDates(kept) then Failure(NotADate)
    else if !AllZonesKnown(kept, zones) then Failure(UnknownTimeZone)
    else if !OneZone(kept) then Failure(MixedTimeZones)
    else Success(CleanGtRows(columns, rows, render, parseTime, offsetAt))
  }

  /** What the GT preprocessing demands of its frame: the date, origin time and zone columns exist. */
  predicate GtSchema(columns: seq<string>, rows: seq<Row>)
  {
    && WellFormed(columns, rows)
    && GT_DATE in columns && GT_TIME_ORIG in columns && GT_TIME_ZONE in columns
  }

  /**
   * The GT preprocessing on a frame. The caller's frame is not changed (the
   * column drop makes a copy); the dropped trips are returned even when the
   * zone lookup fails afterwards.
   */
  method PreprocessGtData(gtData: Frame, render: Cell -> string, parseTime: string -> Option<TimeOfDay>,
                          zones: set<string>, offsetAt: (string, int) -> int)
    returns (result: Result<Frame, GtError>, dropped: Frame)
    requires gtData.Valid() && GtSchema(gtData.columns, gtData.rows)
    ensures fresh(dropped) && dropped.Valid()
    ensures dropped.columns == NamedColumns(gtData.columns)
    ensures dropped.rows == DroppedGtRows(gtData.columns, gtData.rows, render, parseTime)
    ensures result.Failure? <==> GtOutcome(gtData.columns, gtData.rows, render, parseTime, zones, offsetAt).Failure?
    ensures result.Failure? ==>
              GtOutcome(gtData.columns, gtData.rows, render, parseTime, zones, offsetAt) == Failure(result.error)
    ensures result.Success? ==>
              && fresh(result.value) && result.value.Valid()
              && result.value.columns == CleanGtColumns(gtData.columns)
              && GtOutcome(gtData.columns, gtData.rows, render, parseTime, zones, offsetAt)
                 == Success(result.value.rows)
  {
    KeyColumnsAreNamed();
    var keep := NamedColumns(gtData.columns);
    assert GT_TIME_ORIG in keep;
    DropUnnamedWellFormed(gtData.columns, gtData.rows);
    var gt := new Frame(keep, DropUnnamed(gtData.columns, gtData.rows));
    gt.SetColumn(GT_TIME_ORIG, Mapped(gt.rows, GT_TIME_ORIG, TextWith(render)));
    gt.SetColumn(GT_TIME_ORIG, Mapped(gt.rows, GT_TIME_ORIG, ReplaceCell));
    gt.SetColumn(GT_TIME_ORIG, Mapped(gt.rows, GT_TIME_ORIG, ParseTimeWith(parseTime)));
    assert gt.columns == keep;
    assert gt.rows == GtNormalized(gtData.columns, gtData.rows, render, parseTime);
    var cleanRows := DropNa(gt.rows, GT_DROPNA_SUBSET);
    dropped := new Frame(gt.columns, Without(gt.rows, cleanRows));
    if !AllDates(cleanRows) {
      return Failure(NotADate), dropped;
    }
    var clean := new Frame(gt.columns, cleanRows);
    clean.SetColumn(GT_DATE_TIME_COMBINED, CombinedCells(clean.rows));
    assert clean.rows == WithCombined(cleanRows);
    ZonesSurviveAssign(cleanRows, CombinedCells(cleanRows), zones);
    if !AllZonesKnown(clean.rows, zones) {
      return Failure(UnknownTimeZone), dropped;
    }
    var combined := clean.rows;
    clean.SetColumn(GT_DATE_TIME_COMBINED, LocalizedCells(clean.rows, offsetAt));
    ZonesSurviveAssign(combined, LocalizedCells(combined, offsetAt), zones);
    if !OneZone(clean.rows) {
      return Failure(MixedTimeZones), dropped;
    }
    clean.SetColumn(CLOSEST_TIME, Mapped(clean.rows, GT_DATE_TIME_COMBINED, UtcCell));
    result := Success(clean);
  }

  /**
   * The clean GT header has no untitled column, keeps every titled input
   * column in its input order, and ends with the combined time and the key.
   */
  lemma CleanGtColumnsFacts(columns: seq<string>)
    ensures forall c :: c in CleanGtColumns(columns) ==> IsNamed(c)
    ensures forall c :: c in columns && IsNamed(c) ==> c in CleanGtColumns(columns)
    ensures IsSubsequence(NamedColumns(columns), CleanGtColumns(columns))
    ensures GT_DATE_TIME_COMBINED in CleanGtColumns(columns) && CLOSEST_TIME in CleanGtColumns(columns)
  {
    KeyColumnsAreNamed();
    var named := NamedColumns(columns);
    var withCombined := AddColumn(named, GT_DATE_TIME_COMBINED);
    var extra1: seq<string> := if GT_DATE_TIME_COMBINED in named then [] else [GT_DATE_TIME_COMBINED];
    var extra2: seq<string> := if CLOSEST_TIME in withCombined then [] else [CLOSEST_TIME];
    assert withCombined == named + extra1;
    assert CleanGtColumns(columns) == named + (extra1 + extra2);
    SubsequenceOfExtension(named, extra1 + extra2);
  }

  /** The origin time of one input cell after the three rewrites of the GT preprocessing. */
  function NormalizedTime(c: Cell, render: Cell -> string, parseTime: string -> Option<TimeOfDay>): Cell
  {
    ParseTimeCell(ReplaceCell(Text(AsText(c, render))), parseTime)
  }

  /** Row `i` after normalization: same date and zone, origin time rewritten. */
  lemma NormalizedRow(columns: seq<string>, rows: seq<Row>, render: Cell -> string,
                      parseTime: string -> Option<TimeOfDay>, i: int)
    requires GtSchema(columns, rows) && 0 <= i < |rows|
    ensures var n := GtNormalized(columns, rows, render, parseTime)[i];
            && Get(n, GT_DATE) == Get(rows[i], GT_DATE)
            && Get(n, GT_TIME_ZONE) == Get(rows[i], GT_TIME_ZONE)
            && Get(n, GT_TIME_ORIG) == NormalizedTime(Get(rows[i], GT_TIME_ORIG), render, parseTime)
  {
    KeyColumnsAreNamed();
    var keep := ColumnSet(NamedColumns(columns));
    assert GT_DATE in keep && GT_TIME_ZONE in keep && GT_TIME_ORIG in keep;
    var named := DropUnnamed(columns, rows);
    assert rows[i] in rows;
    assert named[i] == RestrictRow(rows[i], keep);
    assert Get(named[i], GT_DATE) == Get(rows[i], GT_DATE);
    assert Get(named[i], GT_TIME_ZONE) == Get(rows[i], GT_TIME_ZONE);
    assert Get(named[i], GT_TIME_ORIG) == Get(rows[i], GT_TIME_ORIG);
    var asText := MapColumn(named, GT_TIME_ORIG, TextWith(render));
    assert asText[i] == named[i][GT_TIME_ORIG := Text(AsText(Get(named[i], GT_TIME_ORIG), render))];
    var repaired := MapColumn(asText, GT_TIME_ORIG, ReplaceCell);
    assert repaired[i] == asText[i][GT_TIME_ORIG := ReplaceCell(Get(asText[i], GT_TIME_ORIG))];
    var parsed := MapColumn(repaired, GT_TIME_ORIG, ParseTimeWith(parseTime));
    assert parsed[i] == repaired[i][GT_TIME_ORIG := ParseTimeCell(Get(repaired[i], GT_TIME_ORIG), parseTime)];
  }

  /** A row of a frame is dropped by `dropna` exactly when it is not kept, and kept exactly when complete. */
  lemma DropNaMembership(rows: seq<Row>, subset: seq<string>, n: Row)
    requires n in rows
    ensures n in DropNa(rows, subset) <==> NotNa(n, subset)
    ensures n in Without(rows, DropNa(rows, subset)) <==> !NotNa(n, subset)
  {
  }

  /** A trip is complete exactly when it has a date and an origin time. */
  lemma GtCompleteIff(row: Row)
    ensures NotNa(row, GT_DROPNA_SUBSET) <==> Get(row, GT_DATE) != Null && Get(row, GT_TIME_ORIG) != Null
  {
    NotNaByCells(row, GT_DROPNA_SUBSET);
    assert GT_DATE in GT_DROPNA_SUBSET && GT_TIME_ORIG in GT_DROPNA_SUBSET;
  }

  /**
   * A trip is logged as dropped exactly when its date is missing or its
   * origin time, once repaired, does not parse; otherwise it is kept.
   */
  lemma TripDroppedIff(columns: seq<string>, rows: seq<Row>, render: Cell -> string,
                       parseTime: string -> Option<TimeOfDay>, i: int)
    requires GtSchema(columns, rows) && 0 <= i < |rows|
    ensures var n := GtNormalized(columns, rows, render, parseTime)[i];
            n in DroppedGtRows(columns, rows, render, parseTime)
            <==> (Get(rows[i], GT_DATE) == Null
                  || NormalizedTime(Get(rows[i], GT_TIME_ORIG), render, parseTime) == Null)
    ensures var n := GtNormalized(columns, rows, render, parseTime)[i];
            n in GtKept(columns, rows, render, parseTime)
            <==> (Get(rows[i], GT_DATE) != Null
                  && NormalizedTime(Get(rows[i], GT_TIME_ORIG), render, parseTime) != Null)
  {
    var normalized := GtNormalized(columns, rows, render, parseTime);
    var n := normalized[i];
    NormalizedRow(columns, rows, render, parseTime, i);
    DropNaMembership(normalized, GT_DROPNA_SUBSET, n);
    GtCompleteIff(n);
  }

  /**
   * The kept trips and the dropped trips split the normalized input: nothing
   * is lost, nothing is both, and every dropped trip lacks a date or an
   * origin time.
   */
  lemma GtPartition(columns: seq<string>, rows: seq<Row>, render: Cell -> string,
                    parseTime: string -> Option<TimeOfDay>)
    ensures var normalized := GtNormalized(columns, rows, render, parseTime);
            multiset(GtKept(columns, rows, render, parseTime))
              + multiset(DroppedGtRows(columns, rows, render, parseTime))
            == multiset(normalized)
    ensures DroppedGtRows(columns, rows, render, parseTime)
            == Filter(GtNormalized(columns, rows, render, parseTime), Incomplete(GT_DROPNA_SUBSET))
    ensures forall row :: row in DroppedGtRows(columns, rows, render, parseTime) ==>
              Get(row, GT_DATE) == Null || Get(row, GT_TIME_ORIG) == Null
    ensures |GtKept(columns, rows, render, parseTime)|
              + |DroppedGtRows(columns, rows, render, parseTime)| == |rows|
  {
    var normalized := GtNormalized(columns, rows, render, parseTime);
    ComplementOfFilter(normalized, Complete(GT_DROPNA_SUBSET), Incomplete(GT_DROPNA_SUBSET));
    FilterPartition(normalized, Complete(GT_DROPNA_SUBSET), Incomplete(GT_DROPNA_SUBSET));
    assert |multiset(normalized)| == |rows|;
    forall row | row in DroppedGtRows(columns, rows, render, parseTime)
      ensures Get(row, GT_DATE) == Null || Get(row, GT_TIME_ORIG) == Null
    {
      NotNaByCells(row, GT_DROPNA_SUBSET);
    }
  }

  /** A normalized trip keeps the date cell of an input trip, and has a parsed time of day or none. */
  lemma NormalizedCellKinds(columns: seq<string>, rows: seq<Row>, render: Cell -> string,
                            parseTime: string -> Option<TimeOfDay>, n: Row)
    requires GtSchema(columns, rows)
    requires n in GtNormalized(columns, rows, render, parseTime)
    ensures exists j :: 0 <= j < |rows| && Get(n, GT_DATE) == Get(rows[j], GT_DATE)
    ensures Get(n, GT_TIME_ORIG) == Null || Get(n, GT_TIME_ORIG).Clock?
  {
    var normalized := GtNormalized(columns, rows, render, parseTime);
    var j :| 0 <= j < |normalized| && normalized[j] == n;
    NormalizedRow(columns, rows, render, parseTime, j);
  }

  /** A wall-clock time splits back into its day and its time of day. */
  lemma DayAndTime(day: int, t: TimeOfDay)
    ensures (day * DAY_MS + t) / DAY_MS == day && (day * DAY_MS + t) % DAY_MS == t
  {
  }

  /** The columns the GT preprocessing writes differ from the ones it reads. */
  lemma WrittenColumnsDistinct()
    ensures GT_DATE_TIME_COMBINED != GT_DATE && GT_DATE_TIME_COMBINED != GT_TIME_ORIG
    ensures GT_DATE_TIME_COMBINED != GT_TIME_ZONE && GT_DATE_TIME_COMBINED != CLOSEST_TIME
    ensures CLOSEST_TIME != GT_DATE && CLOSEST_TIME != GT_TIME_ORIG && CLOSEST_TIME != GT_TIME_ZONE
  {
    assert |GT_DATE_TIME_COMBINED| == 19 && |GT_DATE| == 7 && |CLOSEST_TIME| == 11;
    assert CLOSEST_TIME[0] == 'C' && GT_TIME_ORIG[0] == 'G' && GT_TIME_ZONE[0] == 'G';
  }

  /** The cells the last three steps give one kept trip. */
  lemma CombinedTrip(kept: seq<Row>, zones: set<string>, offsetAt: (string, int) -> int, i: int)
    requires 0 <= i < |kept|
    requires IsDate(Get(kept[i], GT_DATE)) && Get(kept[i], GT_TIME_ORIG).Clock?
    requires KnownZone(Get(kept[i], GT_TIME_ZONE), zones)
    ensures var row := WithUtcKey(WithLocalized(WithCombined(kept), offsetAt))[i];
            var wall := DayOf(Get(kept[i], GT_DATE)) * DAY_MS + Get(kept[i], GT_TIME_ORIG).t;
            var offset := offsetAt(Get(kept[i], GT_TIME_ZONE).s, wall);
            && Get(row, GT_DATE) == Get(kept[i], GT_DATE)
            && Get(row, GT_TIME_ORIG) == Get(kept[i], GT_TIME_ORIG)
            && Get(row, GT_TIME_ZONE) == Get(kept[i], GT_TIME_ZONE)
            && Get(row, GT_DATE_TIME_COMBINED) == Local(wall, offset)
            && Get(row, CLOSEST_TIME) == Instant(wall - offset)
  {
    WrittenColumnsDistinct();
    var k := kept[i];
    var wall := DayOf(Get(k, GT_DATE)) * DAY_MS + Get(k, GT_TIME_ORIG).t;
    var offset := offsetAt(Get(k, GT_TIME_ZONE).s, wall);
    var combined := WithCombined(kept);
    assert combined[i] == k[GT_DATE_TIME_COMBINED := Stamp(wall)];
    var localized := WithLocalized(combined, offsetAt);
    assert LocalizedCells(combined, offsetAt)[i] == Local(wall, offset);
    assert localized[i] == k[GT_DATE_TIME_COMBINED := Local(wall, offset)];
    var keyed := WithUtcKey(localized);
    assert Get(localized[i], GT_DATE_TIME_COMBINED) == Local(wall, offset);
    assert Mapped(localized, GT_DATE_TIME_COMBINED, UtcCell)[i] == UtcCell(Local(wall, offset));
    assert keyed[i] == k[GT_DATE_TIME_COMBINED := Local(wall, offset)][CLOSEST_TIME := Instant(wall - offset)];
  }

  /** The combined time and key of every trip built from complete kept trips with known zones. */
  lemma KeyedTripFacts(kept: seq<Row>, zones: set<string>, offsetAt: (string, int) -> int, row: Row)
    requires forall k :: k in kept ==> IsDate(Get(k, GT_DATE)) && Get(k, GT_TIME_ORIG).Clock?
    requires AllZonesKnown(kept, zones)
    requires row in WithUtcKey(WithLocalized(WithCombined(kept), offsetAt))
    ensures IsDate(Get(row, GT_DATE)) && Get(row, GT_TIME_ORIG).Clock?
    ensures KnownZone(Get(row, GT_TIME_ZONE), zones)
    ensures var local := Get(row, GT_DATE_TIME_COMBINED);
            && local.Local?
            && local.wall / DAY_MS == DayOf(Get(row, GT_DATE))
            && local.wall % DAY_MS == Get(row, GT_TIME_ORIG).t
            && local.offset == offsetAt(Get(row, GT_TIME_ZONE).s, local.wall)
            && Get(row, CLOSEST_TIME) == Instant(local.wall - local.offset)
  {
    var keyed := WithUtcKey(WithLocalized(WithCombined(kept), offsetAt));
    var i :| 0 <= i < |keyed| && keyed[i] == row;
    var k := kept[i];
    assert k in kept;
    CombinedTrip(kept, zones, offsetAt, i);
    DayAndTime(DayOf(Get(k, GT_DATE)), Get(k, GT_TIME_ORIG).t);
  }

  /**
   * Every trip of a successful GT preprocessing has a date and an origin
   * time of day; its combined time is that time on that day, localized with
   * the offset of its (known) zone; its key is the UTC instant of it.
   */
  lemma CleanTripFacts(columns: seq<string>, rows: seq<Row>, render: Cell -> string,
                       parseTime: string -> Option<TimeOfDay>, zones: set<string>,
                       offsetAt: (string, int) -> int, clean: seq<Row>, row: Row)
    requires GtSchema(columns, rows)
    requires GtOutcome(columns, rows, render, parseTime, zones, offsetAt) == Success(clean)
    requires row in clean
    ensures IsDate(Get(row, GT_DATE)) && Get(row, GT_TIME_ORIG).Clock?
    ensures KnownZone(Get(row, GT_TIME_ZONE), zones)
    ensures var local := Get(row, GT_DATE_TIME_COMBINED);
            && local.Local?
            && local.wall / DAY_MS == DayOf(Get(row, GT_DATE))
            && local.wall % DAY_MS == Get(row, GT_TIME_ORIG).t
            && local.offset == offsetAt(Get(row, GT_TIME_ZONE).s, local.wall)
            && Get(row, CLOSEST_TIME) == Instant(local.wall - local.offset)
  {
    var kept := GtKept(columns, rows, render, parseTime);
    forall k | k in kept
      ensures IsDate(Get(k, GT_DATE)) && Get(k, GT_TIME_ORIG).Clock?
    {
      NormalizedCellKinds(columns, rows, render, parseTime, k);
      NotNaByCells(k, GT_DROPNA_SUBSET);
    }
    KeyedTripFacts(kept, zones, offsetAt, row);
  }

  // =====================================================================
  // The thresholds, read from the parsed command line
  // =====================================================================

  datatype ArgValue = Str(s: string) | Real(x: real) | Int(n: int)

  /** The attributes of the parsed-arguments namespace. */
  type Namespace = map<string, ArgValue>

  datatype ArgError = NoSuchAttribute(name: string) | NotANumber(name: string)

  /** The attributes the single-pass merger's argument parser defines. */
  const PARSER_ARGUMENTS: set<string> :=
    {"obaFile", "gtFile", "dataDir", "minActivityDuration", "minTripLength", "tolerance"}

  /**
   * A namespace that parser can produce: its attributes, each of its
   * declared type. argparse converts only given values and string
   * defaults, so the duration is a float when given and the integer 5 when
   * left at its default.
   */
  predicate ParsedNamespace(ns: Namespace)
  {
    && ns.Keys == PARSER_ARGUMENTS
    && ns["obaFile"].Str? && ns["gtFile"].Str? && ns["dataDir"].Str?
    && (ns["minActivityDuration"].Real? || ns["minActivityDuration"].Int?)
    && ns["minTripLength"].Int? && ns["tolerance"].Int?
  }

  /** `args.<name>` compared with a numeric column: a missing attribute or a text fails. */
  function NumericArg(ns: Namespace, name: string): (r: Result<real, ArgError>)
    ensures name !in ns ==> r == Failure(NoSuchAttribute(name))
    ensures name in ns && ns[name].Str? ==> r == Failure(NotANumber(name))
    ensures r.Success? ==> name in ns && (ns[name].Real? || ns[name].Int?)
  {
    if name !in ns then Failure(NoSuchAttribute(name))
    else match ns[name]
      case Real(x) => Success(x)
      case Int(n) => Success(n as real)
      case Str(_) => Failure(NotANumber(name))
  }

  function ThresholdArgs(ns: Namespace, durationName: string): Result<(real, real), ArgError>
  {
    match NumericArg(ns, durationName)
    case Failure(e) => Failure(e)
    case Success(minDuration) =>
      match NumericArg(ns, "minTripLength")
      case Failure(e) => Failure(e)
      case Success(minLength) => Success((minDuration, minLength))
  }

  /** The thresholds as the OBA preprocessing reads them: the duration from `minActivitySpan`. */
  function ThresholdsAsWritten(ns: Namespace): Result<(real, real), ArgError>
  {
    ThresholdArgs(ns, "minActivitySpan")
  }

  /** The thresholds read from the attributes the parser defines. */
  function Thresholds(ns: Namespace): Result<(real, real), ArgError>
  {
    ThresholdArgs(ns, "minActivityDuration")
  }

  /** On every namespace the parser produces, the thresholds as written raise an attribute error. */
  lemma AsWrittenThresholdsFail(ns: Namespace)
    requires ParsedNamespace(ns)
    ensures ThresholdsAsWritten(ns) == Failure(NoSuchAttribute("minActivitySpan"))
  {
    assert "minActivitySpan" !in PARSER_ARGUMENTS;
  }

  /** On every namespace the parser produces, the corrected read yields the two parsed values. */
  lemma ThresholdsFromParsedArgs(ns: Namespace)
    requires ParsedNamespace(ns)
    ensures var d := ns["minActivityDuration"];
            Thresholds(ns) == Success((if d.Real? then d.x else d.n as real, ns["minTripLength"].n as real))
  {
    assert "minActivityDuration" in PARSER_ARGUMENTS && "minTripLength" in PARSER_ARGUMENTS;
  }

  /** The parser's defaults: five minutes and fifty meters, a 3000 ms tolerance. */
  function DefaultNamespace(obaFile: string, gtFile: string): Namespace
  {
    map["obaFile" := Str(obaFile), "gtFile" := Str(gtFile), "dataDir" := Str("data"),
        "minActivityDuration" := Int(5), "minTripLength" := Int(50), "tolerance" := Int(3000)]
  }

  /** A run with default arguments: the read as written fails, the corrected read gives 5 and 50. */
  lemma DefaultArgumentsShowMissingAttribute(obaFile: string, gtFile: string)
    ensures ParsedNamespace(DefaultNamespace(obaFile, gtFile))
    ensures ThresholdsAsWritten(DefaultNamespace(obaFile, gtFile)).Failure?
    ensures Thresholds(DefaultNamespace(obaFile, gtFile)) == Success((5.0, 50.0))
  {
    var ns := DefaultNamespace(obaFile, gtFile);
    assert ns.Keys == PARSER_ARGUMENTS;
    AsWrittenThresholdsFail(ns);
    ThresholdsFromParsedArgs(ns);
  }
}
