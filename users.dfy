/** The users dimension table (etl.py lines 157-173). The source computes each
    user's latest timestamp but joins back on `user_id` alone and never compares
    `ts` with it, so the table keeps one row per event of a known user.
    `UsersTable` models that; `LatestUsersTable` is the table the comment at
    lines 154-156 describes: one row per user, taken from that user's latest
    event. */
module Users {
  import opened Wrappers
  import opened Schema
  import opened Relational

  /** A row of `users_events`. */
  datatype UserEvent = UserEvent(
    user_id: Option<int>,
    first_name: Option<string>,
    last_name: Option<string>,
    gender: Option<string>,
    level: Option<string>,
    ts: Option<Timestamp>)

  /** A row of `max_timestamps`. */
  datatype MaxTimestamp = MaxTimestamp(user_id: Option<int>, max_ts: Option<Timestamp>)

  /** A row of the users table. */
  datatype UserRow = UserRow(
    user_id: Option<int>,
    first_name: Option<string>,
    last_name: Option<string>,
    gender: Option<string>,
    level: Option<string>)

  predicate HasUserId(e: NormalizedEvent) { e.user_id.Some? }

  function SelectUserEvent(e: NormalizedEvent): UserEvent
  {
    UserEvent(e.user_id, e.first_name, e.last_name, e.gender, e.level, e.ts)
  }

  function UserKey(u: UserEvent): Option<int> { u.user_id }

  function RowKey(r: UserRow): Option<int> { r.user_id }

  function ProjectUser(u: UserEvent): UserRow
  {
    UserRow(u.user_id, u.first_name, u.last_name, u.gender, u.level)
  }

  /** `users_events`: filter(user_id is not null), then select. */
  function UsersEvents(events: seq<NormalizedEvent>): seq<UserEvent>
  {
    MapRows(Filter(events, HasUserId), SelectUserEvent)
  }

  /** The later of two nullable timestamps, ignoring NULLs as `max` does. */
  function Later(a: Option<Timestamp>, b: Option<Timestamp>): Option<Timestamp>
  {
    if a.None? then b
    else if b.None? then a
    else if a.value.micros >= b.value.micros then a else b
  }

  /** `max(ts)` over the rows of user `uid`: NULL exactly when all of that
      user's timestamps are NULL, otherwise one of them and no smaller than any. */
  function MaxTsOf(rows: seq<UserEvent>, uid: Option<int>): (r: Option<Timestamp>)
    ensures r.None? <==> forall i :: 0 <= i < |rows| && rows[i].user_id == uid ==> rows[i].ts.None?
    ensures r.Some? ==> exists i :: 0 <= i < |rows| && rows[i].user_id == uid && rows[i].ts == r
    ensures forall i :: 0 <= i < |rows| && rows[i].user_id == uid && rows[i].ts.Some? ==>
      rows[i].ts.value.micros <= r.value.micros
  {
    if rows == [] then None
    else
      var rest := MaxTsOf(rows[1..], uid);
      var r := Later(if rows[0].user_id == uid then rows[0].ts else None, rest);
      assert forall i :: 1 <= i < |rows| ==> rows[i] == rows[1..][i - 1];
      r
  }

  /** `max_timestamps`: groupBy(user_id).agg(max(ts)), one row per user_id. */
  function MaxTimestamps(ue: seq<UserEvent>): seq<MaxTimestamp>
  {
    var firsts := DedupFirst(ue, UserKey);
    seq(|firsts|, k requires 0 <= k < |firsts| => MaxTimestamp(firsts[k].user_id, MaxTsOf(ue, firsts[k].user_id)))
  }

  /** The rows of `groups` that join with event `u` on `user_id`. */
  function JoinOne(u: UserEvent, groups: seq<MaxTimestamp>): seq<(UserEvent, MaxTimestamp)>
  {
    if groups == [] then []
    else (if SqlEquals(u.user_id, groups[0].user_id) then [(u, groups[0])] else []) + JoinOne(u, groups[1..])
  }

  /** `users_events.join(max_timestamps, on = "user_id", how = "inner")`. */
  function JoinOnUserId(ue: seq<UserEvent>, groups: seq<MaxTimestamp>): seq<(UserEvent, MaxTimestamp)>
  {
    if ue == [] then [] else JoinOne(ue[0], groups) + JoinOnUserId(ue[1..], groups)
  }

  function ProjectJoined(p: (UserEvent, MaxTimestamp)): UserRow { ProjectUser(p.0) }

  /** The users table as the source builds it: the join, then
      select(user_id, first_name, last_name, gender, level). */
  function UsersTable(events: seq<NormalizedEvent>): seq<UserRow>
  {
    var ue := UsersEvents(events);
    MapRows(JoinOnUserId(ue, MaxTimestamps(ue)), ProjectJoined)
  }

  /** Every event of `ue` carries a user id. */
  ghost predicate AllKnown(ue: seq<UserEvent>)
  {
    forall i :: 0 <= i < |ue| ==> ue[i].user_id.Some?
  }

  lemma UsersEventsKnown(events: seq<NormalizedEvent>)
    ensures AllKnown(UsersEvents(events))
  {
    var f := Filter(events, HasUserId);
    forall i | 0 <= i < |f| ensures f[i].user_id.Some? {
      assert HasUserId(f[i]);
    }
  }

  /** `max_timestamps` has one row per distinct user id of `ue`, and that row
      carries the user's maximal timestamp. */
  lemma MaxTimestampsSpec(ue: seq<UserEvent>)
    ensures forall a, b :: 0 <= a < b < |MaxTimestamps(ue)| ==>
      MaxTimestamps(ue)[a].user_id != MaxTimestamps(ue)[b].user_id
    ensures GroupsCoverUsers(ue, MaxTimestamps(ue))
    ensures GroupsFromUsers(ue, MaxTimestamps(ue))
    ensures forall k :: 0 <= k < |MaxTimestamps(ue)| ==>
      MaxTimestamps(ue)[k].max_ts == MaxTsOf(ue, MaxTimestamps(ue)[k].user_id)
  {
    MaxTimestampsUnique(ue);
    MaxTimestampsCover(ue);
    MaxTimestampsFrom(ue);
    MaxTimestampsCarryMax(ue);
  }

  /** Every user id of `ue` has a group in `groups`. */
  ghost predicate GroupsCoverUsers(ue: seq<UserEvent>, groups: seq<MaxTimestamp>)
  {
    forall i :: 0 <= i < |ue| ==> exists k :: 0 <= k < |groups| && groups[k].user_id == ue[i].user_id
  }

  /** Every group of `groups` is the user id of some event of `ue`. */
  ghost predicate GroupsFromUsers(ue: seq<UserEvent>, groups: seq<MaxTimestamp>)
  {
    forall k :: 0 <= k < |groups| ==> exists i :: 0 <= i < |ue| && ue[i].user_id == groups[k].user_id
  }

  lemma MaxTimestampsCarryMax(ue: seq<UserEvent>)
    ensures forall k :: 0 <= k < |MaxTimestamps(ue)| ==>
      MaxTimestamps(ue)[k].max_ts == MaxTsOf(ue, MaxTimestamps(ue)[k].user_id)
  {
  }

  lemma MaxTimestampsUnique(ue: seq<UserEvent>)
    ensures forall a, b :: 0 <= a < b < |MaxTimestamps(ue)| ==>
      MaxTimestamps(ue)[a].user_id != MaxTimestamps(ue)[b].user_id
  {
    var firsts := DedupFirst(ue, UserKey);
    var groups := MaxTimestamps(ue);
    DedupFromKeys(ue, UserKey, {});
    forall a, b | 0 <= a < b < |groups| ensures groups[a].user_id != groups[b].user_id {
      assert groups[a].user_id == UserKey(firsts[a]) && groups[b].user_id == UserKey(firsts[b]);
    }
  }

  lemma MaxTimestampsCover(ue: seq<UserEvent>)
    ensures GroupsCoverUsers(ue, MaxTimestamps(ue))
  {
    var firsts := DedupFirst(ue, UserKey);
    var groups := MaxTimestamps(ue);
    DedupFromComplete(ue, UserKey, {});
    forall i | 0 <= i < |ue| ensures exists k :: 0 <= k < |groups| && groups[k].user_id == ue[i].user_id {
      var k :| 0 <= k < |firsts| && UserKey(firsts[k]) == UserKey(ue[i]);
      assert groups[k].user_id == firsts[k].user_id;
    }
  }

  /** Every group of `max_timestamps` is the user id of some event. */
  lemma MaxTimestampsFrom(ue: seq<UserEvent>)
    ensures GroupsFromUsers(ue, MaxTimestamps(ue))
  {
    var firsts := DedupFirst(ue, UserKey);
    var groups := MaxTimestamps(ue);
    DedupFromSound(ue, UserKey, {});
    forall k | 0 <= k < |groups| ensures exists i :: 0 <= i < |ue| && ue[i].user_id == groups[k].user_id {
      assert FirstOccurrenceOf(ue, firsts[k], UserKey);
      var i :| 0 <= i < |ue| && ue[i] == firsts[k] && IsFirstOccurrence(ue, i, UserKey);
      assert groups[k].user_id == firsts[k].user_id;
    }
  }

  /** Joining an event with a known user id against groups with unique user ids
      that include it yields exactly one row, carrying the event itself. */
  lemma {:induction false} JoinOneUnique(u: UserEvent, groups: seq<MaxTimestamp>)
    requires u.user_id.Some?
    requires forall a, b :: 0 <= a < b < |groups| ==> groups[a].user_id != groups[b].user_id
    requires exists k :: 0 <= k < |groups| && groups[k].user_id == u.user_id
    ensures |JoinOne(u, groups)| == 1 && JoinOne(u, groups)[0].0 == u
  {
    var t := groups[1..];
    if groups[0].user_id == u.user_id {
      JoinOneNone(u, t);
    } else {
      var k :| 0 <= k < |groups| && groups[k].user_id == u.user_id;
      assert t[k - 1] == groups[k];
      JoinOneUnique(u, t);
    }
  }

  lemma {:induction false} JoinOneNone(u: UserEvent, groups: seq<MaxTimestamp>)
    requires forall k :: 0 <= k < |groups| ==> groups[k].user_id != u.user_id
    ensures JoinOne(u, groups) == []
  {
    if groups != [] {
      JoinOneNone(u, groups[1..]);
    }
  }

  /** The join against a table with one row per user id neither drops nor
      repeats an event: it returns each event once, in order. */
  lemma {:induction false} JoinOnUserIdKeepsEvents(ue: seq<UserEvent>, groups: seq<MaxTimestamp>)
    requires AllKnown(ue)
    requires forall a, b :: 0 <= a < b < |groups| ==> groups[a].user_id != groups[b].user_id
    requires forall i :: 0 <= i < |ue| ==> exists k :: 0 <= k < |groups| && groups[k].user_id == ue[i].user_id
    ensures |JoinOnUserId(ue, groups)| == |ue|
    ensures forall i :: 0 <= i < |ue| ==> JoinOnUserId(ue, groups)[i].0 == ue[i]
  {
    if ue != [] {
      var t := ue[1..];
      JoinOneUnique(ue[0], groups);
      assert forall i :: 0 <= i < |t| ==> t[i] == ue[i + 1];
      JoinOnUserIdKeepsEvents(t, groups);
      var rest := JoinOnUserId(t, groups);
      var r := JoinOnUserId(ue, groups);
      assert r == JoinOne(ue[0], groups) + rest;
      forall i | 0 <= i < |ue| ensures r[i].0 == ue[i] {
        if i > 0 {
          assert r[i] == rest[i - 1];
        }
      }
    }
  }

  /** As written, the users table has exactly one row per event with a
      non-null user id, in order, with that event's attributes: the maximal
      timestamp plays no part in which rows survive. */
  lemma UsersTableOneRowPerEvent(events: seq<NormalizedEvent>)
    ensures UsersTable(events) == MapRows(UsersEvents(events), ProjectUser)
  {
    var ue := UsersEvents(events);
    UsersEventsKnown(events);
    MaxTimestampsUnique(ue);
    MaxTimestampsCover(ue);
    JoinOnUserIdKeepsEvents(ue, MaxTimestamps(ue));
  }

  /** As written, every row of the users table has a non-null user id and is
      the projection of an event of that user. */
  lemma UsersTableRow(events: seq<NormalizedEvent>, k: int)
    requires 0 <= k < |UsersTable(events)|
    ensures UsersTable(events)[k].user_id.Some?
    ensures exists e :: e in events && ProjectUser(SelectUserEvent(e)) == UsersTable(events)[k]
  {
    var f := Filter(events, HasUserId);
    UsersTableOneRowPerEvent(events);
    assert f[k] in events && HasUserId(f[k]);
    assert UsersTable(events)[k] == ProjectUser(SelectUserEvent(f[k]));
  }

  /** As written, every event with a non-null user id gives a row of the users
      table with that event's attributes. */
  lemma UsersTableCovers(events: seq<NormalizedEvent>, e: NormalizedEvent)
    requires e in events && e.user_id.Some?
    ensures exists k :: 0 <= k < |UsersTable(events)| && UsersTable(events)[k] == ProjectUser(SelectUserEvent(e))
  {
    var f := Filter(events, HasUserId);
    UsersTableOneRowPerEvent(events);
    assert HasUserId(e);
    var k :| 0 <= k < |f| && f[k] == e;
    assert UsersTable(events)[k] == ProjectUser(SelectUserEvent(e));
  }

  /** The events of `ue` that carry their user's maximal timestamp (NULL when
      all of that user's timestamps are NULL). */
  function LatestCandidates(ue: seq<UserEvent>): seq<UserEvent>
  {
    Filter(ue, (u: UserEvent) => u.ts == MaxTsOf(ue, u.user_id))
  }

  /** The users table the comment at etl.py lines 154-156 asks for: join on
      `user_id` and `ts = max_ts`, then keep the first such event of every user.
      The candidate test compares `Option` values with `==`, so a user whose
      timestamps are all NULL keeps a row (NULL equals NULL there), where a SQL
      join on `ts = max_ts` would drop that user. */
  function LatestUsersTable(events: seq<NormalizedEvent>): seq<UserRow>
  {
    var ue := UsersEvents(events);
    MapRows(DedupFirst(LatestCandidates(ue), UserKey), ProjectUser)
  }

  /** The corrected table has no two rows for one user id. */
  lemma LatestUsersTableUnique(events: seq<NormalizedEvent>)
    ensures forall a, b :: 0 <= a < b < |LatestUsersTable(events)| ==>
      LatestUsersTable(events)[a].user_id != LatestUsersTable(events)[b].user_id
  {
    var c := LatestCandidates(UsersEvents(events));
    var d := DedupFirst(c, UserKey);
    DedupFromKeys(c, UserKey, {});
    assert forall a, b :: 0 <= a < b < |d| ==> UserKey(d[a]) != UserKey(d[b]);
  }

  /** Every candidate is an event of `ue` carrying its user's latest timestamp. */
  lemma CandidateIsLatest(ue: seq<UserEvent>, i: int)
    requires 0 <= i < |LatestCandidates(ue)|
    ensures LatestCandidates(ue)[i] in ue
    ensures LatestCandidates(ue)[i].ts == MaxTsOf(ue, LatestCandidates(ue)[i].user_id)
  {
  }

  /** Every row of `users_events` comes from an event with a user id. */
  lemma UsersEventsFrom(events: seq<NormalizedEvent>, u: UserEvent)
    requires u in UsersEvents(events)
    ensures exists e :: e in events && e.user_id.Some? && SelectUserEvent(e) == u
  {
    var f := Filter(events, HasUserId);
    var j :| 0 <= j < |UsersEvents(events)| && UsersEvents(events)[j] == u;
    assert f[j] in events && HasUserId(f[j]);
  }

  /** Every event with a user id has a row of `users_events` with that id. */
  lemma UsersEventsHasUser(events: seq<NormalizedEvent>, e: NormalizedEvent)
    requires e in events && e.user_id.Some?
    ensures exists j :: 0 <= j < |UsersEvents(events)| && UsersEvents(events)[j].user_id == e.user_id
  {
    var f := Filter(events, HasUserId);
    assert HasUserId(e);
    var j :| 0 <= j < |f| && f[j] == e;
    assert UsersEvents(events)[j].user_id == e.user_id;
  }

  /** Every row of the corrected table is the projection of an event of that
      user whose timestamp is the user's latest: no event of the user is later. */
  lemma LatestUsersTableIsLatest(events: seq<NormalizedEvent>, k: int)
    requires 0 <= k < |LatestUsersTable(events)|
    ensures LatestUsersTable(events)[k].user_id.Some?
    ensures exists u :: (u in UsersEvents(events) && ProjectUser(u) == LatestUsersTable(events)[k] &&
      u.ts == MaxTsOf(UsersEvents(events), u.user_id) &&
      forall v :: v in UsersEvents(events) && v.user_id == u.user_id && v.ts.Some? ==>
        u.ts.Some? && v.ts.value.micros <= u.ts.value.micros)
  {
    var ue := UsersEvents(events);
    var c := LatestCandidates(ue);
    var d := DedupFirst(c, UserKey);
    DedupFromSound(c, UserKey, {});
    assert FirstOccurrenceOf(c, d[k], UserKey);
    var i :| 0 <= i < |c| && c[i] == d[k] && IsFirstOccurrence(c, i, UserKey);
    CandidateIsLatest(ue, i);
    var u := c[i];
    UsersEventsFrom(events, u);
    forall v | v in ue && v.user_id == u.user_id && v.ts.Some?
      ensures u.ts.Some? && v.ts.value.micros <= u.ts.value.micros
    {
      MaxTsOfBound(ue, u, v);
    }
    assert ProjectUser(u) == LatestUsersTable(events)[k];
  }

  /** An event carrying its user's maximum timestamp is not earlier than any
      other timestamped event of that user. */
  lemma MaxTsOfBound(ue: seq<UserEvent>, u: UserEvent, v: UserEvent)
    requires u.ts == MaxTsOf(ue, u.user_id)
    requires v in ue && v.user_id == u.user_id && v.ts.Some?
    ensures u.ts.Some? && v.ts.value.micros <= u.ts.value.micros
  {
    var j :| 0 <= j < |ue| && ue[j] == v;
  }

  /** Every user of `ue` has an event among the latest candidates. */
  lemma CandidateForEveryUser(ue: seq<UserEvent>, j: int)
    requires 0 <= j < |ue|
    ensures exists i :: 0 <= i < |LatestCandidates(ue)| && LatestCandidates(ue)[i].user_id == ue[j].user_id
  {
    var c := LatestCandidates(ue);
    var uid := ue[j].user_id;
    var m := MaxTsOf(ue, uid);
    var w: int;
    if m.Some? {
      w :| 0 <= w < |ue| && ue[w].user_id == uid && ue[w].ts == m;
    } else {
      w := j;
    }
    assert ue[w] in c;
    var i :| 0 <= i < |c| && c[i] == ue[w];
  }

  /** Every non-null user id of the events has a row in the corrected table. */
  lemma LatestUsersTableCovers(events: seq<NormalizedEvent>, e: NormalizedEvent)
    requires e in events && e.user_id.Some?
    ensures exists k :: 0 <= k < |LatestUsersTable(events)| && LatestUsersTable(events)[k].user_id == e.user_id
  {
    var ue := UsersEvents(events);
    UsersEventsHasUser(events, e);
    var j :| 0 <= j < |ue| && ue[j].user_id == e.user_id;
    LatestRowsCover(ue, j);
    var d := DedupFirst(LatestCandidates(ue), UserKey);
    var k :| 0 <= k < |d| && d[k].user_id == ue[j].user_id;
    assert LatestUsersTable(events)[k] == ProjectUser(d[k]);
  }

  /** Every user of `ue` keeps a row after the latest candidates are deduplicated. */
  lemma LatestRowsCover(ue: seq<UserEvent>, j: int)
    requires 0 <= j < |ue|
    ensures exists k :: (0 <= k < |DedupFirst(LatestCandidates(ue), UserKey)| &&
      DedupFirst(LatestCandidates(ue), UserKey)[k].user_id == ue[j].user_id)
  {
    CandidateForEveryUser(ue, j);
    var c := LatestCandidates(ue);
    var i :| 0 <= i < |c| && c[i].user_id == ue[j].user_id;
    DedupFirstKeepsKey(c, UserKey, i);
    var k :| 0 <= k < |DedupFirst(c, UserKey)| && UserKey(DedupFirst(c, UserKey)[k]) == UserKey(c[i]);
  }

  /** The distinct non-null user ids of the events. */
  ghost function UserIds(events: seq<NormalizedEvent>): set<Option<int>>
  {
    set e | e in events && e.user_id.Some? :: e.user_id
  }

  /** Every corrected row's user id is that of some event. */
  lemma LatestRowFromEvent(events: seq<NormalizedEvent>, k: int)
    requires 0 <= k < |LatestUsersTable(events)|
    ensures LatestUsersTable(events)[k].user_id in UserIds(events)
  {
    LatestUsersTableIsLatest(events, k);
    var u :| u in UsersEvents(events) && ProjectUser(u) == LatestUsersTable(events)[k];
    UsersEventsFrom(events, u);
    var e :| e in events && e.user_id.Some? && SelectUserEvent(e) == u;
  }

  /** The corrected table has exactly one row per distinct user id. */
  lemma LatestUsersTableSize(events: seq<NormalizedEvent>)
    ensures |LatestUsersTable(events)| == |UserIds(events)|
  {
    var t := LatestUsersTable(events);
    var keys := MapRows(t, RowKey);
    LatestUsersTableUnique(events);
    assert Distinct(keys);
    DistinctCardinality(keys);
    forall x | x in keys ensures x in UserIds(events) {
      var k :| 0 <= k < |keys| && keys[k] == x;
      LatestRowFromEvent(events, k);
    }
    forall x | x in UserIds(events) ensures x in keys {
      var e :| e in events && e.user_id.Some? && e.user_id == x;
      LatestUsersTableCovers(events, e);
      var k :| 0 <= k < |t| && t[k].user_id == x;
      assert keys[k] == x;
    }
    assert (set x | x in keys) == UserIds(events);
  }

  /** Both events of a pair carry a user id, so `users_events` keeps both. */
  lemma UsersEventsOfPair(a: NormalizedEvent, b: NormalizedEvent)
    requires a.user_id.Some? && b.user_id.Some?
    ensures UsersEvents([a, b]) == [SelectUserEvent(a), SelectUserEvent(b)]
  {
    var events := [a, b];
    assert Filter(events, HasUserId) == events by {
      assert Filter(events[1..], HasUserId) == events[1..] by {
        assert events[1..][1..] == [];
      }
    }
  }

  /** As written, two events of one user give that user two rows, each with the
      attributes of its own event: an earlier event on the "free" level leaves a
      stale "free" row beside the later "paid" one. */
  lemma UsersTableRepeatsUser(a: NormalizedEvent, b: NormalizedEvent)
    requires a.user_id.Some? && b.user_id == a.user_id
    ensures UsersTable([a, b]) == [ProjectUser(SelectUserEvent(a)), ProjectUser(SelectUserEvent(b))]
  {
    UsersTableOneRowPerEvent([a, b]);
    UsersEventsOfPair(a, b);
  }

  /** Of two events of one user, only the later one carries the user's latest
      timestamp. */
  lemma LatestCandidatesOfPair(u: UserEvent, v: UserEvent)
    requires u.user_id == v.user_id
    requires u.ts.Some? && v.ts.Some? && u.ts.value.micros < v.ts.value.micros
    ensures LatestCandidates([u, v]) == [v]
  {
    var ue := [u, v];
    assert MaxTsOf(ue, u.user_id) == v.ts by {
      assert ue[1..] == [v];
      assert ue[1..][1..] == [];
    }
    assert Filter(ue[1..], (w: UserEvent) => w.ts == MaxTsOf(ue, w.user_id)) == [v] by {
      assert ue[1..][1..] == [];
    }
  }

  /** The corrected table gives the user a single row, from the later event. */
  lemma LatestUsersTableOneRowPerUser(a: NormalizedEvent, b: NormalizedEvent)
    requires a.user_id.Some? && b.user_id == a.user_id
    requires a.ts.Some? && b.ts.Some? && a.ts.value.micros < b.ts.value.micros
    ensures LatestUsersTable([a, b]) == [ProjectUser(SelectUserEvent(b))]
  {
    UsersEventsOfPair(a, b);
    var v := SelectUserEvent(b);
    LatestCandidatesOfPair(SelectUserEvent(a), v);
    assert DedupFirst([v], UserKey) == [v] by {
      assert [v][1..] == [];
    }
  }
}
