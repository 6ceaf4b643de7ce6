/** The time dimension table (etl.py lines 183-194): every non-null event
    timestamp, renamed `start_time`, with its hour, day of month, ISO week,
    month, year and day of week. The source takes no `distinct`, so an instant
    shared by several events gives several equal rows; `DistinctTimeTable`
    is the table with one row per instant. */
module Time {
  import opened Wrappers
  import opened Schema
  import opened Relational
  import opened Calendar

  const MicrosPerSecond := 1_000_000
  const SecondsPerDay := 86_400
  const SecondsPerHour := 3_600

  /** Whole seconds since the epoch, rounded towards negative infinity. */
  function EpochSeconds(t: Timestamp): int
  {
    t.micros / MicrosPerSecond
  }

  /** The UTC day number of an instant. */
  function EpochDay(t: Timestamp): int
  {
    EpochSeconds(t) / SecondsPerDay
  }

  /** A row of the time table. */
  datatype TimeRow = TimeRow(
    start_time: Timestamp,
    hour: int,
    day: int,
    week: int,
    month: int,
    year: int,
    weekday: int)

  /** The calendar columns of an instant: `hour`, `dayofmonth`, `weekofyear`,
      `month`, `year` and `dayofweek`, evaluated in UTC. */
  function TimeRowOf(t: Timestamp): TimeRow
  {
    var n := EpochDay(t);
    var d := CivilFromDays(n);
    TimeRow(t, EpochSeconds(t) % SecondsPerDay / SecondsPerHour, d.day, WeekOfYear(n), d.month, d.year, DayOfWeek(n))
  }

  /** The columns lie in their ranges, the date is a real date, and the date and
      hour locate the instant to within the hour. */
  lemma TimeRowOfSpec(t: Timestamp)
    ensures TimeRowOf(t).start_time == t
    ensures 0 <= TimeRowOf(t).hour <= 23 && 1 <= TimeRowOf(t).week <= 53 && 1 <= TimeRowOf(t).weekday <= 7
    ensures ValidDate(Date(TimeRowOf(t).year, TimeRowOf(t).month, TimeRowOf(t).day))
    ensures var start := DaysFromCivil(Date(TimeRowOf(t).year, TimeRowOf(t).month, TimeRowOf(t).day)) * SecondsPerDay
                         + TimeRowOf(t).hour * SecondsPerHour;
      start <= EpochSeconds(t) < start + SecondsPerHour
    ensures TimeRowOf(t).weekday == DayOfWeek(EpochDay(t)) && TimeRowOf(t).week == WeekOfYear(EpochDay(t))
  {
  }

  /** `select('ts').filter(ts is not null).withColumnRenamed('ts', 'start_time')`:
      the non-null timestamps of the events, in order, repeats included. */
  function StartTimes(events: seq<NormalizedEvent>): (r: seq<Timestamp>)
    ensures |r| <= |events|
    ensures forall t :: t in r <==> exists e :: e in events && e.ts == Some(t)
  {
    if events == [] then []
    else
      (if events[0].ts.Some? then [events[0].ts.value] else []) + StartTimes(events[1..])
  }

  predicate HasTs(e: NormalizedEvent) { e.ts.Some? }

  /** One start time per event with a non-null timestamp. */
  lemma {:induction false} StartTimesCount(events: seq<NormalizedEvent>)
    ensures |StartTimes(events)| == |Filter(events, HasTs)|
  {
    if events != [] {
      StartTimesCount(events[1..]);
    }
  }

  /** The time table as the source builds it. */
  function TimeTable(events: seq<NormalizedEvent>): seq<TimeRow>
  {
    MapRows(StartTimes(events), TimeRowOf)
  }

  /** Rows whose start time is `t`. */
  function StartsAt(t: Timestamp): TimeRow -> bool
  {
    (r: TimeRow) => r.start_time == t
  }

  /** Events whose timestamp is `t`. */
  function CarriesTs(t: Timestamp): NormalizedEvent -> bool
  {
    (e: NormalizedEvent) => e.ts == Some(t)
  }

  function StartTimeKey(r: TimeRow): Timestamp { r.start_time }

  /** A breakdown of instants into rows that keeps the instant as `start_time`.
      The table lemmas below hold for any such breakdown; `TimeRowOf` is one. */
  ghost predicate KeepsStart(f: Timestamp -> TimeRow)
  {
    forall u :: f(u).start_time == u
  }

  lemma TimeRowOfKeepsStart()
    ensures KeepsStart(TimeRowOf)
  {
  }

  lemma BreakdownRow(events: seq<NormalizedEvent>, f: Timestamp -> TimeRow, k: int)
    requires KeepsStart(f)
    requires 0 <= k < |MapRows(StartTimes(events), f)|
    ensures MapRows(StartTimes(events), f)[k] == f(MapRows(StartTimes(events), f)[k].start_time)
    ensures exists e :: e in events && e.ts == Some(MapRows(StartTimes(events), f)[k].start_time)
  {
    assert StartTimes(events)[k] in StartTimes(events);
  }

  lemma {:induction false} BreakdownMultiplicity(events: seq<NormalizedEvent>, f: Timestamp -> TimeRow, t: Timestamp)
    requires KeepsStart(f)
    ensures |Filter(MapRows(StartTimes(events), f), StartsAt(t))| == |Filter(events, CarriesTs(t))|
  {
    if events != [] {
      BreakdownMultiplicity(events[1..], f, t);
      var head := if events[0].ts.Some? then [f(events[0].ts.value)] else [];
      assert MapRows(StartTimes(events), f) == head + MapRows(StartTimes(events[1..]), f);
      FilterAppend(head, MapRows(StartTimes(events[1..]), f), StartsAt(t));
      assert |Filter(head, StartsAt(t))| == if CarriesTs(t)(events[0]) then 1 else 0;
    }
  }

  lemma DistinctBreakdownRow(events: seq<NormalizedEvent>, f: Timestamp -> TimeRow, k: int)
    requires KeepsStart(f)
    requires 0 <= k < |DedupFirst(MapRows(StartTimes(events), f), StartTimeKey)|
    ensures DedupFirst(MapRows(StartTimes(events), f), StartTimeKey)[k]
         == f(DedupFirst(MapRows(StartTimes(events), f), StartTimeKey)[k].start_time)
    ensures exists e :: e in events && e.ts == Some(DedupFirst(MapRows(StartTimes(events), f), StartTimeKey)[k].start_time)
  {
    var s := MapRows(StartTimes(events), f);
    DedupFromSound(s, StartTimeKey, {});
    assert AllFirstOccurrences(s, DedupFirst(s, StartTimeKey), StartTimeKey);
    var i :| 0 <= i < |s| && s[i] == DedupFirst(s, StartTimeKey)[k] && IsFirstOccurrence(s, i, StartTimeKey);
    BreakdownRow(events, f, i);
  }

  lemma DistinctBreakdownCovers(events: seq<NormalizedEvent>, f: Timestamp -> TimeRow, e: NormalizedEvent)
    requires KeepsStart(f)
    requires e in events && e.ts.Some?
    ensures exists k :: (0 <= k < |DedupFirst(MapRows(StartTimes(events), f), StartTimeKey)| &&
      DedupFirst(MapRows(StartTimes(events), f), StartTimeKey)[k].start_time == e.ts.value)
  {
    var s := MapRows(StartTimes(events), f);
    var st := StartTimes(events);
    assert e.ts.value in st;
    var i :| 0 <= i < |st| && st[i] == e.ts.value;
    assert StartTimeKey(s[i]) == e.ts.value;
    DedupFromComplete(s, StartTimeKey, {});
    var k :| 0 <= k < |DedupFirst(s, StartTimeKey)| && StartTimeKey(DedupFirst(s, StartTimeKey)[k]) == StartTimeKey(s[i]);
  }

  /** Every row is the calendar breakdown of its own `start_time`, and that
      instant is the timestamp of some event. */
  lemma TimeTableRow(events: seq<NormalizedEvent>, k: int)
    requires 0 <= k < |TimeTable(events)|
    ensures TimeTable(events)[k] == TimeRowOf(TimeTable(events)[k].start_time)
    ensures exists e :: e in events && e.ts == Some(TimeTable(events)[k].start_time)
  {
    TimeRowOfKeepsStart();
    BreakdownRow(events, TimeRowOf, k);
  }

  /** The time table has exactly one row per event with a non-null timestamp. */
  lemma TimeTableCount(events: seq<NormalizedEvent>)
    ensures |TimeTable(events)| == |Filter(events, HasTs)|
  {
    StartTimesCount(events);
  }

  /** The source keeps repeats: an instant carried by `c` events has exactly `c`
      rows. */
  lemma TimeTableMultiplicity(events: seq<NormalizedEvent>, t: Timestamp)
    ensures |Filter(TimeTable(events), StartsAt(t))| == |Filter(events, CarriesTs(t))|
  {
    TimeRowOfKeepsStart();
    BreakdownMultiplicity(events, TimeRowOf, t);
  }

  /** The time table with one row per instant (the first, all rows of an
      instant being equal). */
  function DistinctTimeTable(events: seq<NormalizedEvent>): seq<TimeRow>
  {
    DedupFirst(TimeTable(events), StartTimeKey)
  }

  /** No instant appears twice in the corrected table. */
  lemma DistinctTimeTableUnique(events: seq<NormalizedEvent>)
    ensures forall a, b :: 0 <= a < b < |DistinctTimeTable(events)| ==>
      DistinctTimeTable(events)[a].start_time != DistinctTimeTable(events)[b].start_time
  {
    var d := DistinctTimeTable(events);
    DedupFromKeys(TimeTable(events), StartTimeKey, {});
    assert forall a, b :: 0 <= a < b < |d| ==> StartTimeKey(d[a]) != StartTimeKey(d[b]);
  }

  /** Every row of the corrected table is the breakdown of an event's timestamp. */
  lemma DistinctTimeTableRow(events: seq<NormalizedEvent>, k: int)
    requires 0 <= k < |DistinctTimeTable(events)|
    ensures DistinctTimeTable(events)[k] == TimeRowOf(DistinctTimeTable(events)[k].start_time)
    ensures exists e :: e in events && e.ts == Some(DistinctTimeTable(events)[k].start_time)
  {
    TimeRowOfKeepsStart();
    DistinctBreakdownRow(events, TimeRowOf, k);
  }

  /** Every non-null event timestamp has a row in the corrected table. */
  lemma DistinctTimeTableCovers(events: seq<NormalizedEvent>, e: NormalizedEvent)
    requires e in events && e.ts.Some?
    ensures exists k :: 0 <= k < |DistinctTimeTable(events)| && DistinctTimeTable(events)[k].start_time == e.ts.value
  {
    TimeRowOfKeepsStart();
    DistinctBreakdownCovers(events, TimeRowOf, e);
    var d := DedupFirst(MapRows(StartTimes(events), TimeRowOf), StartTimeKey);
    var k :| 0 <= k < |d| && d[k].start_time == e.ts.value;
    assert DistinctTimeTable(events) == d;
  }

  /** The distinct non-null timestamps of the events. */
  ghost function Instants(events: seq<NormalizedEvent>): set<Timestamp>
  {
    set e | e in events && e.ts.Some? :: e.ts.value
  }

  lemma DistinctBreakdownSize(events: seq<NormalizedEvent>, f: Timestamp -> TimeRow)
    requires KeepsStart(f)
    ensures |DedupFirst(MapRows(StartTimes(events), f), StartTimeKey)| == |Instants(events)|
  {
    var d := DedupFirst(MapRows(StartTimes(events), f), StartTimeKey);
    var keys := MapRows(d, StartTimeKey);
    DedupFromKeys(MapRows(StartTimes(events), f), StartTimeKey, {});
    assert Distinct(keys);
    DistinctCardinality(keys);
    forall t | t in keys ensures t in Instants(events) {
      var k :| 0 <= k < |keys| && keys[k] == t;
      DistinctBreakdownRow(events, f, k);
    }
    forall t | t in Instants(events) ensures t in keys {
      var e :| e in events && e.ts == Some(t);
      DistinctBreakdownCovers(events, f, e);
      var k :| 0 <= k < |d| && d[k].start_time == t;
      assert keys[k] == t;
    }
    assert (set x | x in keys) == Instants(events);
  }

  /** The corrected table has exactly one row per distinct instant. */
  lemma DistinctTimeTableSize(events: seq<NormalizedEvent>)
    ensures |DistinctTimeTable(events)| == |Instants(events)|
  {
    TimeRowOfKeepsStart();
    DistinctBreakdownSize(events, TimeRowOf);
  }

  /** 2018-11-01T21:11:13Z, a Thursday. */
  const SampleInstant := Timestamp(1_541_106_673_000_000)

  /** The calendar columns of the sample instant: 21 h, 1 November 2018,
      ISO week 44, fifth day of a Sunday-first week. */
  lemma SampleInstantBreakdown()
    ensures TimeRowOf(SampleInstant) == TimeRow(SampleInstant, 21, 1, 44, 11, 2018, 5)
  {
    var secs := EpochSeconds(SampleInstant);
    assert secs == 1_541_106_673;
    assert secs / SecondsPerDay == 17836;
    assert secs % SecondsPerDay / SecondsPerHour == 21;
    NovemberFirst2018();
    NovemberFirst2018Week();
  }

  /** As written, two events at one instant give two equal rows. */
  lemma TimeTableRepeatsInstant(a: NormalizedEvent, b: NormalizedEvent)
    requires a.ts.Some? && b.ts == a.ts
    ensures |TimeTable([a, b])| == 2
    ensures TimeTable([a, b])[0] == TimeTable([a, b])[1] == TimeRowOf(a.ts.value)
  {
    var events := [a, b];
    assert StartTimes(events) == [a.ts.value, a.ts.value] by {
      assert StartTimes(events[1..]) == [a.ts.value] by {
        assert events[1..][1..] == [];
      }
    }
  }

  /** The corrected table gives the shared instant one row. */
  lemma DistinctTimeTableOneRowPerInstant(a: NormalizedEvent, b: NormalizedEvent)
    requires a.ts.Some? && b.ts == a.ts
    ensures |DistinctTimeTable([a, b])| == 1
  {
    InstantsOfPair(a, b);
    DistinctTimeTableSize([a, b]);
  }

  lemma InstantsOfPair(a: NormalizedEvent, b: NormalizedEvent)
    requires a.ts.Some? && b.ts == a.ts
    ensures |Instants([a, b])| == 1
  {
    assert Instants([a, b]) == {a.ts.value};
  }
}
