/** Record shapes of the two sources and of the normalised event stream.
    Every column is nullable: a missing JSON field reads as `None`, and a
    record that does not fit the schema reads as all `None`. */
module Schema {
  import opened Wrappers

  /** A single-precision float column (`FloatType`), carried as its bit pattern:
      the pipelines only copy these values. */
  datatype Float32 = Float32(bits: bv32)

  /** A double-precision float column (`DoubleType`, inferred for `length`). */
  datatype Float64 = Float64(bits: bv64)

  /** A Spark `TimestampType` value: microseconds since 1970-01-01T00:00:00 UTC. */
  datatype Timestamp = Timestamp(micros: int)

  /** One song-catalog record under the fixed ten-column catalog schema
      (`songs_schema`, etl.py lines 22-33), columns in schema order. */
  datatype SongRecord = SongRecord(
    artist_id: Option<string>,
    artist_latitude: Option<Float32>,
    artist_location: Option<string>,
    artist_longitude: Option<Float32>,
    artist_name: Option<string>,
    duration: Option<Float32>,
    num_songs: Option<int>,
    song_id: Option<string>,
    title: Option<string>,
    year: Option<int>)

  /** One raw log event as read with an inferred schema: `ts` and
      `registration` are epoch milliseconds, `userId` is text. */
  datatype RawEvent = RawEvent(
    artist: Option<string>,
    auth: Option<string>,
    firstName: Option<string>,
    gender: Option<string>,
    itemInSession: Option<int>,
    lastName: Option<string>,
    length: Option<Float64>,
    level: Option<string>,
    location: Option<string>,
    requestMethod: Option<string>,  // the `method` column (a Dafny keyword)
    page: Option<string>,
    registration: Option<int>,
    sessionId: Option<int>,
    song: Option<string>,
    status: Option<int>,
    ts: Option<int>,
    userAgent: Option<string>,
    userId: Option<string>)

  /** A log event after normalisation: timestamps typed, `user_id` an integer,
      camelCase columns renamed to snake_case. */
  datatype NormalizedEvent = NormalizedEvent(
    artist: Option<string>,
    auth: Option<string>,
    first_name: Option<string>,
    gender: Option<string>,
    item_in_session: Option<int>,
    last_name: Option<string>,
    length: Option<Float64>,
    level: Option<string>,
    location: Option<string>,
    requestMethod: Option<string>,  // the `method` column (a Dafny keyword)
    page: Option<string>,
    registration: Option<Timestamp>,
    session_id: Option<int>,
    song: Option<string>,
    status: Option<int>,
    ts: Option<Timestamp>,
    user_agent: Option<string>,
    user_id: Option<int>)
}
