/** The songplays fact table (etl.py lines 135-145): "NextSong" events,
    inner-joined against the raw song catalog on exact title and artist name,
    each joined row tagged with a `monotonically_increasing_id`. */
module Songplays {
  import opened Wrappers
  import opened Schema
  import opened Relational

  /** Lower-casing of one character (ASCII letters). */
  function LowerChar(c: char): char
  {
    if 'A' <= c <= 'Z' then (c as int - 'A' as int + 'a' as int) as char else c
  }

  /** `F.lower`, on ASCII letters. */
  function Lower(s: string): (r: string)
    ensures |r| == |s|
    ensures forall i :: 0 <= i < |s| ==> r[i] == LowerChar(s[i])
  {
    seq(|s|, i requires 0 <= i < |s| => LowerChar(s[i]))
  }

  /** `filter(lower(page) == "nextsong")`: a NULL page is dropped. */
  predicate IsNextSong(e: NormalizedEvent)
  {
    e.page.Some? && Lower(e.page.value) == "nextsong"
  }

  /** A character lower-cases to the letter `l` exactly when it is `l` or its
      capital. */
  lemma LowerCharToLetter(c: char, l: char)
    requires 'a' <= l <= 'z'
    ensures LowerChar(c) == l <==> c == l || c == (l as int - 'a' as int + 'A' as int) as char
  {
  }

  /** The page filter is a case-insensitive comparison with "nextsong": the page
      is present, has eight characters, and each is the lower- or upper-case
      letter of "nextsong" at that position. */
  lemma {:induction false} IsNextSongCaseInsensitive(e: NormalizedEvent)
    ensures IsNextSong(e) <==>
      e.page.Some? && |e.page.value| == 8 &&
      forall i :: 0 <= i < 8 ==> e.page.value[i] == "nextsong"[i] || e.page.value[i] == "NEXTSONG"[i]
  {
    if e.page.Some? && |e.page.value| == 8 {
      var pg := e.page.value;
      forall i | 0 <= i < 8
        ensures Lower(pg)[i] == "nextsong"[i] <==> pg[i] == "nextsong"[i] || pg[i] == "NEXTSONG"[i]
      {
        LowerCharToLetter(pg[i], "nextsong"[i]);
      }
      assert Lower(pg) == "nextsong" <==> forall i :: 0 <= i < 8 ==> Lower(pg)[i] == "nextsong"[i];
    }
  }

  /** The event columns kept for a play (`ts` is renamed `start_time` later). */
  datatype PlayEvent = PlayEvent(
    ts: Option<Timestamp>,
    user_id: Option<int>,
    level: Option<string>,
    song: Option<string>,
    artist: Option<string>,
    session_id: Option<int>,
    location: Option<string>,
    user_agent: Option<string>)

  function SelectPlay(e: NormalizedEvent): PlayEvent
  {
    PlayEvent(e.ts, e.user_id, e.level, e.song, e.artist, e.session_id, e.location, e.user_agent)
  }

  /** The join condition `song == title AND artist == artist_name`, with SQL
      NULL semantics: case-sensitive, exact, and never true on a NULL. */
  predicate Matches(p: PlayEvent, c: SongRecord)
  {
    SqlEquals(p.song, c.title) && SqlEquals(p.artist, c.artist_name)
  }

  /** A row of the songplays table: the play columns, every column of the
      matched catalog record (the join keeps them all), and the surrogate key. */
  datatype Songplay = Songplay(
    start_time: Option<Timestamp>,
    user_id: Option<int>,
    level: Option<string>,
    song: Option<string>,
    artist: Option<string>,
    session_id: Option<int>,
    location: Option<string>,
    user_agent: Option<string>,
    record: SongRecord,
    songplay_id: int)

  /** The plays that enter the join, in log order. */
  function PlaysOf(events: seq<NormalizedEvent>): seq<PlayEvent>
  {
    MapRows(Filter(events, IsNextSong), SelectPlay)
  }

  /** The catalog positions matching play `i`, from position `j` on, as (play, record) index pairs. */
  function RowPairs(p: PlayEvent, catalog: seq<SongRecord>, i: nat, j: nat): (r: seq<(nat, nat)>)
    requires j <= |catalog|
    ensures forall k :: 0 <= k < |r| ==> r[k].0 == i && j <= r[k].1 < |catalog| && Matches(p, catalog[r[k].1])
    ensures forall a, b :: 0 <= a < b < |r| ==> r[a].1 < r[b].1
    ensures forall j' :: j <= j' < |catalog| && Matches(p, catalog[j']) ==> (i, j') in r
    decreases |catalog| - j
  {
    if j == |catalog| then []
    else
      var rest := RowPairs(p, catalog, i, j + 1);
      if Matches(p, catalog[j]) then [(i, j)] + rest else rest
  }

  /** The inner join as a nested loop over plays `i..` and the whole catalog:
      every matching (play, record) index pair once, plays in order. */
  function JoinPairs(plays: seq<PlayEvent>, catalog: seq<SongRecord>, i: nat): (r: seq<(nat, nat)>)
    requires i <= |plays|
    ensures forall k :: 0 <= k < |r| ==>
      i <= r[k].0 < |plays| && r[k].1 < |catalog| && Matches(plays[r[k].0], catalog[r[k].1])
    decreases |plays| - i
  {
    if i == |plays| then []
    else RowPairs(plays[i], catalog, i, 0) + JoinPairs(plays, catalog, i + 1)
  }

  /** The bit position of the partition index in `monotonically_increasing_id`. */
  const PartitionStride: int := 0x2_0000_0000

  /** `monotonically_increasing_id` of the `k`-th joined row when the rows are
      split, in order, into partitions of `rowsPerPartition` rows: the
      partition index in the upper bits, the position in the partition below. */
  function MonotonicId(k: nat, rowsPerPartition: nat): (id: int)
    requires 0 < rowsPerPartition <= PartitionStride
    ensures 0 <= id
    ensures id / PartitionStride == k / rowsPerPartition
    ensures id % PartitionStride == k % rowsPerPartition
  {
    (k / rowsPerPartition) * PartitionStride + k % rowsPerPartition
  }

  function MakeSongplay(p: PlayEvent, c: SongRecord, id: int): Songplay
  {
    Songplay(p.ts, p.user_id, p.level, p.song, p.artist, p.session_id, p.location, p.user_agent, c, id)
  }

  /** The songplays table. */
  function SongplaysTable(events: seq<NormalizedEvent>, catalog: seq<SongRecord>, rowsPerPartition: nat): (r: seq<Songplay>)
    requires 0 < rowsPerPartition <= PartitionStride
    ensures forall k :: 0 <= k < |r| ==> r[k].record in catalog
  {
    var plays := PlaysOf(events);
    var pairs := JoinPairs(plays, catalog, 0);
    seq(|pairs|, k requires 0 <= k < |pairs| =>
      MakeSongplay(plays[pairs[k].0], catalog[pairs[k].1], MonotonicId(k, rowsPerPartition)))
  }

  /** Multiplication by a non-negative factor is monotonic. */
  lemma MulMonotonic(a: int, b: int, c: nat)
    requires a <= b
    ensures a * c <= b * c
  {
    assert b * c - a * c == (b - a) * c;
  }

  /** Row `k1` comes no later than row `k2` in partition order. */
  lemma PartitionOrder(k1: nat, k2: nat, n: nat)
    requires 0 < n && k1 < k2
    ensures k1 / n <= k2 / n
    ensures k1 / n == k2 / n ==> k1 % n < k2 % n
  {
    var q1, q2 := k1 / n, k2 / n;
    if q2 < q1 {
      MulMonotonic(q2 + 1, q1, n);
      assert false;
    }
  }

  /** The ids are strictly increasing in row order, hence pairwise distinct,
      for every partition size Spark allows. */
  lemma MonotonicIdIncreasing(k1: nat, k2: nat, rowsPerPartition: nat)
    requires 0 < rowsPerPartition <= PartitionStride
    requires k1 < k2
    ensures MonotonicId(k1, rowsPerPartition) < MonotonicId(k2, rowsPerPartition)
  {
    var n := rowsPerPartition;
    var q1, q2 := k1 / n, k2 / n;
    PartitionOrder(k1, k2, n);
    if q1 < q2 {
      MulMonotonic(q1 + 1, q2, PartitionStride);
      assert (q1 + 1) * PartitionStride == q1 * PartitionStride + PartitionStride;
      assert k1 % n < PartitionStride;
    }
  }

  /** The index pairs of `JoinPairs` never repeat. */
  lemma {:induction false} JoinPairsDistinct(plays: seq<PlayEvent>, catalog: seq<SongRecord>, i: nat)
    requires i <= |plays|
    ensures Distinct(JoinPairs(plays, catalog, i))
    decreases |plays| - i
  {
    if i < |plays| {
      JoinPairsDistinct(plays, catalog, i + 1);
      var head := RowPairs(plays[i], catalog, i, 0);
      var tail := JoinPairs(plays, catalog, i + 1);
      var r := head + tail;
      forall a, b | 0 <= a < b < |r| ensures r[a] != r[b] {
        if b < |head| {
          assert r[a].1 < r[b].1;
        } else if a < |head| {
          assert r[a].0 == i && r[b] == tail[b - |head|];
        } else {
          assert r[a] == tail[a - |head|] && r[b] == tail[b - |head|];
        }
      }
    }
  }

  /** Every matching pair with a play at position `i` or later is in `JoinPairs`. */
  lemma {:induction false} JoinPairsComplete(plays: seq<PlayEvent>, catalog: seq<SongRecord>, i: nat, a: nat, b: nat)
    requires i <= a < |plays| && b < |catalog| && Matches(plays[a], catalog[b])
    ensures (a, b) in JoinPairs(plays, catalog, i)
    decreases a - i
  {
    var head, tail := RowPairs(plays[i], catalog, i, 0), JoinPairs(plays, catalog, i + 1);
    assert JoinPairs(plays, catalog, i) == head + tail;
    if a > i {
      JoinPairsComplete(plays, catalog, i + 1, a, b);
      assert (a, b) in tail;
    } else {
      assert (a, b) in head;
    }
  }

  /** The set of (play, catalog record) index pairs satisfying the join condition. */
  ghost function MatchingPairs(plays: seq<PlayEvent>, catalog: seq<SongRecord>): set<(nat, nat)>
  {
    set a: nat, b: nat | a < |plays| && b < |catalog| && Matches(plays[a], catalog[b]) :: (a, b)
  }

  /** Soundness: every songplay row comes from a "NextSong" event and a catalog
      record whose title and artist name equal the event's song and artist. */
  lemma SongplaysSound(events: seq<NormalizedEvent>, catalog: seq<SongRecord>, rowsPerPartition: nat, k: int)
    requires 0 < rowsPerPartition <= PartitionStride
    requires 0 <= k < |SongplaysTable(events, catalog, rowsPerPartition)|
    ensures exists e :: (e in events && IsNextSong(e) &&
      MakeSongplay(SelectPlay(e), SongplaysTable(events, catalog, rowsPerPartition)[k].record,
                   SongplaysTable(events, catalog, rowsPerPartition)[k].songplay_id)
        == SongplaysTable(events, catalog, rowsPerPartition)[k])
    ensures SongplaysTable(events, catalog, rowsPerPartition)[k].record in catalog
    ensures SongplaysTable(events, catalog, rowsPerPartition)[k].song.Some?
    ensures SongplaysTable(events, catalog, rowsPerPartition)[k].song
         == SongplaysTable(events, catalog, rowsPerPartition)[k].record.title
    ensures SongplaysTable(events, catalog, rowsPerPartition)[k].artist.Some?
    ensures SongplaysTable(events, catalog, rowsPerPartition)[k].artist
         == SongplaysTable(events, catalog, rowsPerPartition)[k].record.artist_name
  {
    var plays := PlaysOf(events);
    var pairs := JoinPairs(plays, catalog, 0);
    var f := Filter(events, IsNextSong);
    var a := pairs[k].0;
    assert plays[a] == SelectPlay(f[a]);
    assert f[a] in events && IsNextSong(f[a]);
  }

  /** Completeness and multiplicity: the table has exactly one row per matching
      (play, catalog record) pair, so a play whose song appears twice in the
      catalog is counted twice and a play without a match is dropped. */
  lemma SongplaysCount(events: seq<NormalizedEvent>, catalog: seq<SongRecord>, rowsPerPartition: nat)
    requires 0 < rowsPerPartition <= PartitionStride
    ensures |SongplaysTable(events, catalog, rowsPerPartition)| == |MatchingPairs(PlaysOf(events), catalog)|
  {
    var plays := PlaysOf(events);
    var pairs := JoinPairs(plays, catalog, 0);
    JoinPairsDistinct(plays, catalog, 0);
    DistinctCardinality(pairs);
    forall x | x in MatchingPairs(plays, catalog) ensures x in pairs {
      JoinPairsComplete(plays, catalog, 0, x.0, x.1);
    }
    assert (set x | x in pairs) == MatchingPairs(plays, catalog);
  }

  /** Each matching (play, catalog record) pair yields a row carrying that
      play's columns and that record. */
  lemma SongplaysComplete(events: seq<NormalizedEvent>, catalog: seq<SongRecord>, rowsPerPartition: nat, a: int, b: int)
    requires 0 < rowsPerPartition <= PartitionStride
    requires 0 <= a < |PlaysOf(events)| && 0 <= b < |catalog| && Matches(PlaysOf(events)[a], catalog[b])
    ensures exists k :: (0 <= k < |SongplaysTable(events, catalog, rowsPerPartition)| &&
      SongplaysTable(events, catalog, rowsPerPartition)[k]
        == MakeSongplay(PlaysOf(events)[a], catalog[b], SongplaysTable(events, catalog, rowsPerPartition)[k].songplay_id))
  {
    var plays := PlaysOf(events);
    var pairs := JoinPairs(plays, catalog, 0);
    JoinPairsComplete(plays, catalog, 0, a, b);
    var k :| 0 <= k < |pairs| && pairs[k] == (a, b);
    assert SongplaysTable(events, catalog, rowsPerPartition)[k]
        == MakeSongplay(plays[a], catalog[b], MonotonicId(k, rowsPerPartition));
  }

  /** `songplay_id` strictly increases down the table, so no two rows share one. */
  lemma SongplayIdsUnique(events: seq<NormalizedEvent>, catalog: seq<SongRecord>, rowsPerPartition: nat)
    requires 0 < rowsPerPartition <= PartitionStride
    ensures forall a, b :: 0 <= a < b < |SongplaysTable(events, catalog, rowsPerPartition)| ==>
      SongplaysTable(events, catalog, rowsPerPartition)[a].songplay_id
        < SongplaysTable(events, catalog, rowsPerPartition)[b].songplay_id
  {
    var t := SongplaysTable(events, catalog, rowsPerPartition);
    forall a, b | 0 <= a < b < |t| ensures t[a].songplay_id < t[b].songplay_id {
      MonotonicIdIncreasing(a, b, rowsPerPartition);
    }
  }

  /** The page filter is case-insensitive: "NextSong" passes, "Home" does not. */
  lemma NextSongFilterExamples(e: NormalizedEvent)
    ensures e.page == Some("NextSong") ==> IsNextSong(e)
    ensures e.page == Some("NEXTSONG") ==> IsNextSong(e)
    ensures e.page == Some("Home") ==> !IsNextSong(e)
    ensures e.page == None ==> !IsNextSong(e)
  {
    if e.page == Some("NextSong") {
      assert Lower("NextSong") == "nextsong";
    }
    if e.page == Some("NEXTSONG") {
      assert Lower("NEXTSONG") == "nextsong";
    }
    if e.page == Some("Home") {
      assert Lower("Home")[0] == 'h';
    }
  }
}
