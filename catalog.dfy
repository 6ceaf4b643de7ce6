/** The songs and artists dimension tables, extracted from the song catalog
    (etl.py lines 70-75 and 85-91). */
module Catalog {
  import opened Wrappers
  import opened Schema
  import opened Relational

  /** A row of the songs table. */
  datatype SongRow = SongRow(
    song_id: Option<string>,
    title: Option<string>,
    artist_id: Option<string>,
    year: Option<int>,
    duration: Option<Float32>)

  /** A row of the artists table (`artist_name` renamed to `name`). */
  datatype ArtistRow = ArtistRow(
    artist_id: Option<string>,
    name: Option<string>,
    artist_location: Option<string>,
    artist_latitude: Option<Float32>,
    artist_longitude: Option<Float32>)

  function ProjectSong(c: SongRecord): SongRow
  {
    SongRow(c.song_id, c.title, c.artist_id, c.year, c.duration)
  }

  function ProjectArtist(c: SongRecord): ArtistRow
  {
    ArtistRow(c.artist_id, c.artist_name, c.artist_location, c.artist_latitude, c.artist_longitude)
  }

  function SongKey(r: SongRow): Option<string> { r.song_id }

  predicate HasSongId(r: SongRow) { r.song_id.Some? }

  function ArtistKey(r: ArtistRow): Option<string> { r.artist_id }

  predicate HasArtistId(r: ArtistRow) { r.artist_id.Some? }

  predicate IsPresent(k: Option<string>) { k.Some? }

  /** select(song_id, title, artist_id, year, duration), then
      drop_duplicates([song_id]), then filter(song_id is not null). */
  function SongsTable(catalog: seq<SongRecord>): (r: seq<SongRow>)
    ensures |r| <= |catalog|
    ensures forall k :: 0 <= k < |r| ==> r[k].song_id.Some?
  {
    Filter(DedupFirst(MapRows(catalog, ProjectSong), SongKey), HasSongId)
  }

  /** select(artist_id, artist_name, artist_location, artist_latitude,
      artist_longitude), rename artist_name to name, then
      drop_duplicates([artist_id]), then filter(artist_id is not null). */
  function ArtistsTable(catalog: seq<SongRecord>): (r: seq<ArtistRow>)
    ensures |r| <= |catalog|
    ensures forall k :: 0 <= k < |r| ==> r[k].artist_id.Some?
  {
    Filter(DedupFirst(MapRows(catalog, ProjectArtist), ArtistKey), HasArtistId)
  }

  /** The songs table is keyed on song_id: no two rows share a song_id. */
  lemma SongsTableUnique(catalog: seq<SongRecord>)
    ensures forall a, b :: 0 <= a < b < |SongsTable(catalog)| ==>
      SongsTable(catalog)[a].song_id != SongsTable(catalog)[b].song_id
  {
    DedupFilterUnique(MapRows(catalog, ProjectSong), SongKey, HasSongId);
  }

  /** Every row of the songs table has a song_id and is the projection of the
      first catalog record carrying that song_id. */
  lemma SongsTableRow(catalog: seq<SongRecord>, k: int)
    requires 0 <= k < |SongsTable(catalog)|
    ensures SongsTable(catalog)[k].song_id.Some?
    ensures exists i :: (0 <= i < |catalog| && SongsTable(catalog)[k] == ProjectSong(catalog[i]) &&
      forall j :: 0 <= j < i ==> catalog[j].song_id != catalog[i].song_id)
  {
    var rows := MapRows(catalog, ProjectSong);
    DedupFilterRow(rows, SongKey, HasSongId, k);
    var i :| 0 <= i < |rows| && rows[i] == SongsTable(catalog)[k] && IsFirstOccurrence(rows, i, SongKey);
    forall j | 0 <= j < i ensures catalog[j].song_id != catalog[i].song_id {
      assert SongKey(rows[j]) != SongKey(rows[i]);
    }
  }

  /** Every song_id present in the catalog appears in the songs table exactly once. */
  lemma SongsTableComplete(catalog: seq<SongRecord>, i: int)
    requires 0 <= i < |catalog| && catalog[i].song_id.Some?
    ensures exists k :: 0 <= k < |SongsTable(catalog)| && SongsTable(catalog)[k].song_id == catalog[i].song_id
    ensures forall a, b :: (0 <= a < |SongsTable(catalog)| && 0 <= b < |SongsTable(catalog)| &&
      SongsTable(catalog)[a].song_id == catalog[i].song_id &&
      SongsTable(catalog)[b].song_id == catalog[i].song_id) ==> a == b
  {
    var rows := MapRows(catalog, ProjectSong);
    assert rows[i] == ProjectSong(catalog[i]);
    DedupFilterComplete(rows, SongKey, HasSongId, IsPresent, i);
    var k :| 0 <= k < |SongsTable(catalog)| && SongKey(SongsTable(catalog)[k]) == SongKey(rows[i]);
    assert SongsTable(catalog)[k].song_id == catalog[i].song_id;
    SongsTableUnique(catalog);
  }

  /** The artists table is keyed on artist_id: no two rows share an artist_id. */
  lemma ArtistsTableUnique(catalog: seq<SongRecord>)
    ensures forall a, b :: 0 <= a < b < |ArtistsTable(catalog)| ==>
      ArtistsTable(catalog)[a].artist_id != ArtistsTable(catalog)[b].artist_id
  {
    DedupFilterUnique(MapRows(catalog, ProjectArtist), ArtistKey, HasArtistId);
  }

  /** Every row of the artists table has an artist_id, and its name, location
      and coordinates are those of the first catalog record carrying that
      artist_id. */
  lemma ArtistsTableRow(catalog: seq<SongRecord>, k: int)
    requires 0 <= k < |ArtistsTable(catalog)|
    ensures ArtistsTable(catalog)[k].artist_id.Some?
    ensures exists i :: (0 <= i < |catalog| && ArtistsTable(catalog)[k].artist_id == catalog[i].artist_id &&
      ArtistsTable(catalog)[k].name == catalog[i].artist_name &&
      ArtistsTable(catalog)[k] == ProjectArtist(catalog[i]) &&
      forall j :: 0 <= j < i ==> catalog[j].artist_id != catalog[i].artist_id)
  {
    var rows := MapRows(catalog, ProjectArtist);
    DedupFilterRow(rows, ArtistKey, HasArtistId, k);
    var i :| 0 <= i < |rows| && rows[i] == ArtistsTable(catalog)[k] && IsFirstOccurrence(rows, i, ArtistKey);
    forall j | 0 <= j < i ensures catalog[j].artist_id != catalog[i].artist_id {
      assert ArtistKey(rows[j]) != ArtistKey(rows[i]);
    }
  }

  /** Every artist_id present in the catalog appears in the artists table exactly once. */
  lemma ArtistsTableComplete(catalog: seq<SongRecord>, i: int)
    requires 0 <= i < |catalog| && catalog[i].artist_id.Some?
    ensures exists k :: 0 <= k < |ArtistsTable(catalog)| && ArtistsTable(catalog)[k].artist_id == catalog[i].artist_id
    ensures forall a, b :: (0 <= a < |ArtistsTable(catalog)| && 0 <= b < |ArtistsTable(catalog)| &&
      ArtistsTable(catalog)[a].artist_id == catalog[i].artist_id &&
      ArtistsTable(catalog)[b].artist_id == catalog[i].artist_id) ==> a == b
  {
    var rows := MapRows(catalog, ProjectArtist);
    assert rows[i] == ProjectArtist(catalog[i]);
    DedupFilterComplete(rows, ArtistKey, HasArtistId, IsPresent, i);
    var k :| 0 <= k < |ArtistsTable(catalog)| && ArtistKey(ArtistsTable(catalog)[k]) == ArtistKey(rows[i]);
    assert ArtistsTable(catalog)[k].artist_id == catalog[i].artist_id;
    ArtistsTableUnique(catalog);
  }

  /** Deduplicating before dropping null song_ids, as the source does, yields the
      same table as dropping them first and deduplicating afterwards. */
  lemma SongsFilterOrderIrrelevant(catalog: seq<SongRecord>)
    ensures SongsTable(catalog)
         == DedupFirst(Filter(MapRows(catalog, ProjectSong), HasSongId), SongKey)
  {
    DedupThenFilter(MapRows(catalog, ProjectSong), SongKey, HasSongId, IsPresent, {}, {});
  }

  /** The same for the artists table: dropping null `artist_id` rows first
      gives the same table. */
  lemma ArtistsFilterOrderIrrelevant(catalog: seq<SongRecord>)
    ensures ArtistsTable(catalog)
         == DedupFirst(Filter(MapRows(catalog, ProjectArtist), HasArtistId), ArtistKey)
  {
    DedupThenFilter(MapRows(catalog, ProjectArtist), ArtistKey, HasArtistId, IsPresent, {}, {});
  }
}
