/** The two entry points of etl.py: `process_song_data` (lines 52-97) builds
    the songs and artists tables from the song catalog, `process_log_data`
    (lines 100-202) the songplays, users and time tables from the event log
    and the same catalog. Reading JSON and writing Parquet are left out; the
    tables are returned, and their Parquet partition columns are recorded. */
module Pipeline {
  import opened Wrappers
  import opened Schema
  import opened Relational
  import opened Catalog
  import opened Normalize
  import opened Songplays
  import opened Users
  import opened Time

  /** `partitionBy` of the songs, users and time tables; artists and songplays
      are written unpartitioned. */
  const SongsPartitionColumns: seq<string> := ["year", "artist_id"]
  const UsersPartitionColumns: seq<string> := ["gender", "level"]
  const TimePartitionColumns: seq<string> := ["year", "month"]

  datatype SongTables = SongTables(songs: seq<SongRow>, artists: seq<ArtistRow>)

  datatype LogTables = LogTables(songplays: seq<Songplay>, users: seq<UserRow>, time: seq<TimeRow>)

  /** Both song tables are keyed: every row has a non-null key and no key
      repeats. */
  function ProcessSongData(catalog: seq<SongRecord>): (r: SongTables)
    ensures forall k :: 0 <= k < |r.songs| ==> r.songs[k].song_id.Some?
    ensures forall a, b :: 0 <= a < b < |r.songs| ==> r.songs[a].song_id != r.songs[b].song_id
    ensures forall k :: 0 <= k < |r.artists| ==> r.artists[k].artist_id.Some?
    ensures forall a, b :: 0 <= a < b < |r.artists| ==> r.artists[a].artist_id != r.artists[b].artist_id
  {
    SongsTableUnique(catalog);
    ArtistsTableUnique(catalog);
    SongTables(SongsTable(catalog), ArtistsTable(catalog))
  }

  /** The log tables, each built from the normalised log; the songplays join
      reads the raw catalog, not the deduplicated songs table. */
  function ProcessLogData(logs: seq<RawEvent>, catalog: seq<SongRecord>, rowsPerPartition: nat): LogTables
    requires 0 < rowsPerPartition <= PartitionStride
  {
    var events := NormalizeLogs(logs);
    LogTables(SongplaysTable(events, catalog, rowsPerPartition), UsersTable(events), TimeTable(events))
  }

  /** A raw event whose `userId` casts to an integer. */
  predicate UserIdCasts(l: RawEvent) { CastUserId(l.userId).Some? }

  predicate HasRawTs(l: RawEvent) { l.ts.Some? }

  /** Counted against the raw log: the users table has one row per event whose
      `userId` casts to an integer, and the time table one row per event with a
      `ts`. */
  lemma LogTablesRowCounts(logs: seq<RawEvent>, catalog: seq<SongRecord>, rowsPerPartition: nat)
    requires 0 < rowsPerPartition <= PartitionStride
    ensures |ProcessLogData(logs, catalog, rowsPerPartition).users| == |Filter(logs, UserIdCasts)|
    ensures |ProcessLogData(logs, catalog, rowsPerPartition).time| == |Filter(logs, HasRawTs)|
  {
    var events := NormalizeLogs(logs);
    UsersTableOneRowPerEvent(events);
    FilterMapRowsCount(logs, NormalizeEvent, HasUserId, UserIdCasts);
    TimeTableCount(events);
    FilterMapRowsCount(logs, NormalizeEvent, HasTs, HasRawTs);
  }
}
