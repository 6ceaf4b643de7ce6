# A verified model of the Sparkify data-lake ETL

`etl.py` reads a catalog of song records and a log of user events from JSON. It
builds five analytics tables from them: songs, artists, songplays, users and
time. Each table is a chain of DataFrame operations: `select`, `filter`,
`drop_duplicates`, `join`, `groupBy().agg(max)` and `withColumn`. This project
models each of those chains as a pure Dafny function over finite sequences of
rows. Nullable columns are `Option` values. It then proves what each table
contains.

Modules, one per part of the program:

- `Wrappers`: `Option` and SQL equality, where a comparison with NULL is never true.
- `Relational`: row-wise projection, filtering, and `drop_duplicates` keeping
  the first row of each key. Also the general lemmas about them.
- `Schema`: the song record of `songs_schema`, the raw log event, and the
  normalised log event.
- `Catalog`: the songs and artists tables (`process_song_data`).
- `Normalize`: the cleaning of the log. Timestamps are converted, `userId` is
  cast to a 32-bit integer, and camelCase columns get snake_case names.
- `Songplays`: the `NextSong` filter, the inner join with the raw catalog on
  title and artist name, and `monotonically_increasing_id`.
- `Users`: the users table as written, and the table its comments ask for.
- `Calendar`: proleptic Gregorian arithmetic on day numbers counted from
  1970-01-01. This gives dates, ISO weeks and weekdays.
- `Time`: the time table, with the hour, day, ISO week, month, year and
  weekday of every event timestamp.
- `Pipeline`: `process_song_data` and `process_log_data` as functions returning
  their tables, and the Parquet partition columns.

Timestamps are microseconds since the epoch, Spark's internal unit. Events are
interpreted in UTC.

In the code, the songs and artists tables are deduplicated first and rows with
a null key are dropped afterwards. Deduplicating before dropping null keys could
in principle differ from the reverse order. `Catalog.SongsFilterOrderIrrelevant`
and `Catalog.ArtistsFilterOrderIrrelevant` prove that it does not.

## Model

| member | source | states |
|---|---|---|
| Relational.Filter | etl.py:74 | A filter keeps only rows passing the test and keeps every row that passes. The result is never longer than the input. |
| Relational.FilterMultiplicity | etl.py:74 | A filter keeps each passing row exactly as many times as it occurs, and drops every other row. |
| Relational.DedupFirstSpec | etl.py:73 | `drop_duplicates` leaves pairwise distinct keys. Every kept row is the first row of the input with its key. Every such first row is kept. |
| Relational.DedupThenFilter | etl.py:73-74 | When the filter depends only on the key, deduplicating and then filtering equals filtering and then deduplicating. |
| Catalog.SongsTable | etl.py:70-75 | The songs table is never longer than the catalog, and every row has a non-null `song_id`. `SongsTableUnique`, `SongsTableRow` and `SongsTableComplete` pin down its rows. |
| Catalog.ArtistsTable | etl.py:85-91 | The artists table is never longer than the catalog, and every row has a non-null `artist_id`. `ArtistsTableUnique`, `ArtistsTableRow` and `ArtistsTableComplete` pin down its rows. |
| Catalog.SongsTableUnique | etl.py:70-75 | No two rows of the songs table share a `song_id`. |
| Catalog.SongsTableRow | etl.py:70-75 | Every songs row has a non-null `song_id`. It is the projection of the first catalog record with that `song_id`. |
| Catalog.SongsTableComplete | etl.py:72-74 | Every non-null catalog `song_id` appears in the songs table exactly once. |
| Catalog.ArtistsTableUnique | etl.py:85-91 | No two rows of the artists table share an `artist_id`. |
| Catalog.ArtistsTableRow | etl.py:85-91 | Every artists row has a non-null `artist_id`. Its `name` is the `artist_name` of the first catalog record with that id, and so are its other columns. |
| Catalog.ArtistsTableComplete | etl.py:89-90 | Every non-null catalog `artist_id` appears in the artists table exactly once. |
| Catalog.SongsFilterOrderIrrelevant | etl.py:73-74 | Dropping null `song_id` rows before or after deduplication gives the same songs table. |
| Catalog.ArtistsFilterOrderIrrelevant | etl.py:89-90 | Dropping null `artist_id` rows before or after deduplication gives the same artists table. |
| Normalize.CastToInt | etl.py:120 | A string-to-integer cast yields a value within the 32-bit range. The empty string yields NULL. |
| Normalize.CastToIntRoundTrip | etl.py:120 | Every 32-bit integer written in decimal casts back to itself. |
| Normalize.CastToIntSignedDigits | etl.py:120 | An optional '-' or '+' followed by a non-empty digit string casts to the signed value when it lies within 32 bits, and to NULL when it does not. |
| Normalize.CastToIntDropsFraction | etl.py:120 | Digits after a '.' are discarded: "12.7" casts as "12" does, with any sign. |
| Normalize.CastToIntAccepted | etl.py:120 | Conversely, every string that casts is a sign or none, digits, and optionally a '.' followed by digits. Its value is the signed value of the digits before the '.'. |
| Normalize.CastToIntRejects | etl.py:120 | A string holding a character other than a digit, a '.' or a leading sign casts to NULL. |
| Normalize.NormalizeLogs | etl.py:115-128 | Normalisation keeps the number of rows. `NormalizeLogsSpec` states each row. |
| Normalize.NormalizeLogsSpec | etl.py:115-128 | Normalisation keeps row count and order. `user_id` is `n` exactly when the raw `userId` casts to `n`, and NULL otherwise. `ts` and `registration` are NULL exactly when they were, and are otherwise the same instant. The six renamed columns carry the raw values. Every other column (artist, auth, gender, length, level, location, method, page, song, status) is unchanged. |
| Normalize.NormalizeLosesOnlyUserId | etl.py:115-128 | With the exact millisecond conversion, two raw events that normalise to the same row differ at most in `userId`. |
| Songplays.IsNextSongCaseInsensitive | etl.py:137 | An event passes the page filter exactly when its page is present, has eight characters, and each is the lower- or upper-case letter of "nextsong" at that position. |
| Songplays.NextSongFilterExamples | etl.py:137 | "NextSong" and "NEXTSONG" pass the page filter. "Home" and a NULL page do not. |
| Songplays.RowPairs | etl.py:139-142 | The join of one play with the catalog from index `j` on yields exactly the matching catalog indices, in increasing order. |
| Songplays.JoinPairs | etl.py:139-142 | Every joined pair combines a play with a catalog record matching it on title and artist name. |
| Songplays.JoinPairsDistinct | etl.py:139-142 | The join produces no pair twice. |
| Songplays.JoinPairsComplete | etl.py:139-142 | Every matching (play, catalog record) pair is produced. |
| Songplays.SongplaysTable | etl.py:135-145 | Every songplay's record is in the raw catalog. `SongplaysSound`, `SongplaysCount` and `SongplaysComplete` pin down its rows. |
| Songplays.MonotonicId | etl.py:144 | The id is non-negative. Dividing by 2^33 gives the partition index, and the remainder is the position within the partition. |
| Songplays.SongplaysSound | etl.py:135-145 | Every songplay comes from an event whose lower-cased page is "nextsong". Its record is in the raw catalog. Its non-null song and artist equal that record's title and artist name. |
| Songplays.SongplaysCount | etl.py:139-142 | The songplays table has exactly one row per matching pair. A catalog record repeated `c` times therefore multiplies a play `c` times. |
| Songplays.SongplaysComplete | etl.py:139-142 | Every matching pair yields a songplay carrying that play and that record. |
| Songplays.MonotonicIdIncreasing | etl.py:144 | `monotonically_increasing_id` increases strictly with the row's position. |
| Songplays.SongplayIdsUnique | etl.py:144 | All `songplay_id` values are distinct. |
| Users.UsersEventsKnown | etl.py:157-161 | `users_events` has no NULL `user_id`. |
| Users.MaxTsOf | etl.py:163-167 | `max(ts)` of a user is NULL exactly when all their timestamps are NULL. Otherwise it is one of them and no timestamp of the user is later. |
| Users.MaxTimestampsUnique | etl.py:163-167 | `max_timestamps` has no user id twice. |
| Users.MaxTimestampsCover | etl.py:163-167 | Every user id of `users_events` has a row in `max_timestamps`. |
| Users.MaxTimestampsFrom | etl.py:163-167 | Every row of `max_timestamps` is the user id of some event. |
| Users.MaxTimestampsSpec | etl.py:163-167 | `max_timestamps` has exactly one row per user id of `users_events`: no id twice, every event's id present, and no id without an event. Each row carries that user's maximum timestamp. |
| Users.MaxTimestamps | etl.py:163-167 | Defines `groupBy("user_id").agg(max("ts"))`. `MaxTimestampsSpec` states its rows. |
| Users.UsersTable | etl.py:157-173 | Defines the users table as written. `UsersTableOneRowPerEvent`, `UsersTableRow` and `UsersTableCovers` state its rows. |
| Users.LatestUsersTable | etl.py:154-173 | Defines the users table that the comment at etl.py:154-156 asks for. The `LatestUsersTable*` lemmas state its rows. |
| Users.JoinOneUnique | etl.py:171 | An event joined with groups holding its user id exactly once yields exactly one pair, containing the event. |
| Users.JoinOnUserIdKeepsEvents | etl.py:169-171 | The inner join on `user_id` yields exactly one pair per event, in order, carrying the event unchanged. |
| Users.UsersTableOneRowPerEvent | etl.py:169-173 | The users table as written equals `users_events` projected row by row: one row per event of a known user. |
| Users.UsersTableRow | etl.py:157-173 | Every users row has a non-null `user_id` and is the projection of some event. |
| Users.UsersTableCovers | etl.py:157-173 | Every event with a non-null `user_id` has its projection in the users table. |
| Users.UsersTableRepeatsUser | etl.py:169-173 | Any two events of one known user give the table as written two rows for that user, each the projection of its own event, so a stale level survives. |
| Users.LatestUsersTableUnique | etl.py:154-173 | The corrected users table has no two rows for one user. |
| Users.LatestUsersTableIsLatest | etl.py:154-173 | Every corrected row is the projection of an event of that user whose timestamp is the user's maximum. No event of the user is later. |
| Users.LatestUsersTableCovers | etl.py:154-173 | Every non-null user id of the events has a row in the corrected table. |
| Users.LatestUsersTableOneRowPerUser | etl.py:154-173 | On two events of one user where the second is later, the corrected table has one row: the projection of the later event. |
| Users.LatestUsersTableSize | etl.py:154-173 | The corrected table has exactly one row per distinct non-null user id of the events. |
| Calendar.DaysBeforeYearStep | etl.py:192 | The number of days between two consecutive New Year's days is the length of the year, following the Gregorian leap rule. |
| Calendar.DaysBeforeYearMonotonic | etl.py:192 | New Year's days increase with the year. |
| Calendar.YearOfDay | etl.py:192 | The year of a day number is the one whose span holds the day. |
| Calendar.YearOfDayUnique | etl.py:192 | Exactly one year holds a given day. |
| Calendar.DaysInMonthBounds | etl.py:189 | Months have 28 to 31 days and add up to the year. |
| Calendar.CivilFromDays | etl.py:189-192 | Every day number maps to a valid date whose day number is that day. |
| Calendar.MonthFromUnique | etl.py:189 | A day of the year lying within the span of month `m` is assigned month `m`, so a day belongs to exactly one month. |
| Calendar.CivilFromDaysInverse | etl.py:189-192 | Every valid date maps back to itself: dates and day numbers correspond one to one. |
| Calendar.DayOfWeek | etl.py:193 | `dayofweek` lies in 1..7. |
| Calendar.DayOfWeekCycle | etl.py:193 | The weekday repeats every seven days and advances by one each day, from Saturday (7) back to Sunday (1). |
| Calendar.WeekThursday | etl.py:190 | The result is a Thursday, and the day lies between that Thursday's Monday (three days before) and Sunday (three days after). |
| Calendar.WeekOfYear | etl.py:190 | `weekofyear` lies in 1..53. |
| Calendar.WeekOfYearStep | etl.py:190 | Seven days on, the week number goes up by one while the weeks' Thursdays share a year. Otherwise the later Thursday is in the next year and the number restarts at 1. |
| Calendar.WeekRunsMondayToSunday | etl.py:190 | Consecutive days from Monday to Sunday share their week number. |
| Calendar.JanuaryFourthInWeekOne | etl.py:190 | The week holding January 4 is week 1, as ISO-8601 requires. |
| Calendar.NovemberFirst2018 | etl.py:189-192 | Day 17836 is 1 November 2018. |
| Calendar.NovemberFirst2018Week | etl.py:190-193 | Day 17836 is a Thursday (weekday 5) in ISO week 44. |
| Time.TimeRowOf | etl.py:187-193 | Defines the breakdown of one instant into the time-table columns. `TimeRowOfSpec` states it. |
| Time.TimeRowOfSpec | etl.py:187-193 | Each time row keeps its instant as `start_time`. hour is in 0..23, week in 1..53 and weekday in 1..7. (year, month, day) is a valid date. Date and hour locate the instant to within the hour. |
| Time.StartTimes | etl.py:185-187 | The start times are exactly the non-null event timestamps. |
| Time.TimeTableCount | etl.py:184-187 | The time table has exactly one row per event with a non-null `ts`. |
| Time.TimeTable | etl.py:183-194 | Defines the time table as written. `TimeTableCount`, `TimeTableRow` and `TimeTableMultiplicity` state its rows. |
| Time.TimeTableRow | etl.py:183-194 | Every time row is the calendar breakdown of its own `start_time`, which is some event's timestamp. |
| Time.TimeTableMultiplicity | etl.py:183-194 | An instant carried by `c` events has exactly `c` rows: duplicates are kept. |
| Time.TimeTableRepeatsInstant | etl.py:183-194 | Any two events sharing a non-null timestamp give two rows, both the breakdown of that instant. |
| Time.DistinctTimeTable | etl.py:183-194 | Defines the time table with one row per instant. The `DistinctTimeTable*` lemmas state its rows. |
| Time.DistinctTimeTableUnique | etl.py:183-194 | The corrected time table has no instant twice. |
| Time.DistinctTimeTableRow | etl.py:183-194 | Every corrected row is the breakdown of some event's timestamp. |
| Time.DistinctTimeTableCovers | etl.py:183-194 | Every non-null event timestamp has a corrected row. |
| Time.DistinctTimeTableSize | etl.py:183-194 | The corrected table has exactly as many rows as there are distinct non-null timestamps. |
| Time.DistinctTimeTableOneRowPerInstant | etl.py:183-194 | Any two events sharing a non-null timestamp give one corrected row. |
| Time.SampleInstantBreakdown | etl.py:188-193 | 2018-11-01T21:11:13Z breaks down to hour 21, day 1, week 44, month 11, year 2018, weekday 5. |
| Pipeline.ProcessSongData | etl.py:52-97 | Defines `process_song_data` as its two tables. In both, every row has a non-null key and no key repeats. The SongsTable and ArtistsTable lemmas state their rows. |
| Pipeline.ProcessLogData | etl.py:100-194 | Defines `process_log_data` as its three tables: songplays, users and time. `LogTablesRowCounts` and the table lemmas state them. |
| Pipeline.LogTablesRowCounts | etl.py:115-194 | Counted against the raw log: the users table has one row per event whose `userId` casts to an integer. The time table has one row per event with a `ts`. |

## Left out

- Reading JSON from S3, writing Parquet (`partitionBy` and `mode='overwrite'`), configuration and credentials, and the Spark session: these are I/O and engine set-up. Tables are inputs and results, and the partition columns are recorded as constants in `Pipeline`.
- Normalize.MillisToTimestamp: converts epoch milliseconds exactly (times 1000). The source goes through a single-precision `cast('float')`, which rounds current epoch values to about two minutes. That rounding is floating point and is not modelled.
- The float columns (`duration`, `artist_latitude`, `artist_longitude`, `length`) are opaque bit patterns that are only copied.
- Normalize.CastToInt: follows Spark 2 string-to-int casting. That is an optional sign, digits, and an optional '.' with digits that are truncated, within 32 bits, with no whitespace trimming. Spark 3 also trims whitespace, and that is not modelled.
- Songplays.Lower: lower-cases ASCII letters only. This is exact for the comparison with "nextsong", but not for other Unicode letters.
- `drop_duplicates` keeps whichever row the engine meets first. The model fixes this as the first row in input order.
- Songplays.SongplaysTable: the join's output order is engine-defined. The model fixes it as plays outer, catalog inner.
- Songplays.MonotonicId: models `monotonically_increasing_id` with every partition holding the same number of rows, a parameter of at most 2^33. Spark's real partition sizes are not modelled. Uniqueness holds for any such size.
- The session time zone is assumed to be UTC. The calendar is proleptic Gregorian, although Spark 2 uses Julian dates before 1582.
- Time.TimeRowOf: computes the hour by floor division, so it lies in 0..23 for every instant. Spark 2's `hour` divides with truncation, which gives a negative hour (-23..0) for an instant before 1970. `TimeRowOfSpec`'s hour bound therefore does not hold for the program on pre-1970 timestamps.
- Normalize.NormalizeLosesOnlyUserId: holds for the exact conversion in `MillisToTimestamp`. The program's single-precision cast merges epoch values about two minutes apart, so two raw events that differ only in `ts` or `registration` can normalise to the same row.
- Users.LatestUsersTable: the candidate test compares `ts` with `max_ts` using equality on optional values. A user whose timestamps are all NULL therefore keeps a row, where a SQL join on `ts = max_ts` would drop that user.
- Shuffles, parallelism and `main`'s orchestration are not modelled.

## Findings

| source | as written | input that shows it | evidently intended | confidence | as-written member | corrected member |
|---|---|---|---|---|---|---|
| etl.py:169-173 | `users_events` is joined with `max_timestamps` on `user_id` only. `max_ts` is never compared with `ts` and is dropped, so every event of a user gives a row. | Any two events of one user, e.g. user 7 "free" at 1 s then "paid" at 2 s: two rows for user 7, one on "free". | One row per user, taken from the user's latest event, as the comment at lines 154-156 says. | not executed; high | Users.UsersTableRepeatsUser | Users.LatestUsersTableIsLatest |
| etl.py:183-194 | The time table has no `distinct`, so each event timestamp gives a row. | Any two events at one instant, e.g. both at 2018-11-01T21:11:13Z: two equal rows. | One row per instant, because `start_time` keys the dimension. | not executed; medium | Time.TimeTableRepeatsInstant | Time.DistinctTimeTableSize |
