/**
 The repository's read-only views over engagement state: the ten songs ordered by play count
 (`Get10TopPlayedAsync`), the songs of the like groups (`Get10MostLikedAsync`) and a user's
 listening history (`GetListeningHistoryAsync`). Songs are returned by id.
 */
module Rankings {
  import opened Store
  import opened Ordering
  import opened Engagement

  /** The `Take(10)` bound, and the bound of the loop over like groups. */
  const TakeCount: nat := 10

  // ---------------------------------------------------------------------------------------
  // Ranking a counter map

  /** Song `a` may be listed before song `b` when ranking by `counts`: ascending when `asc`,
      descending otherwise. Equal counts may go either way. */
  predicate Before(counts: map<SongId, nat>, asc: bool, a: SongId, b: SongId)
  {
    a in counts && b in counts && (if asc then counts[a] <= counts[b] else counts[a] >= counts[b])
  }

  function BeforeRel(counts: map<SongId, nat>, asc: bool): (SongId, SongId) -> bool
  {
    (a, b) => Before(counts, asc, a, b)
  }

  /** `r` is an admissible answer of "order by count, take `n`": `min(n, |counts|)` distinct
      songs, in order, and no song left out ranks strictly before one taken. */
  ghost predicate RankedBy(counts: map<SongId, nat>, asc: bool, n: nat, r: seq<SongId>)
  {
    && |r| == Min(n, |counts|)
    && (forall i :: 0 <= i < |r| ==> r[i] in counts)
    && Distinct(r)
    && (forall i, j :: 0 <= i < j < |r| ==> Before(counts, asc, r[i], r[j]))
    && (forall i, s :: 0 <= i < |r| && s in counts && s !in r ==> Before(counts, asc, r[i], s))
  }

  lemma BeforeIsPreorder(counts: map<SongId, nat>, asc: bool)
    ensures TotalPreorderOn(counts.Keys, BeforeRel(counts, asc))
  {
  }

  /** Order by count and take the first `n`, with ties in an unspecified order. */
  method Rank(counts: map<SongId, nat>, asc: bool, n: nat) returns (r: seq<SongId>)
    ensures RankedBy(counts, asc, n, r)
  {
    BeforeIsPreorder(counts, asc);
    r := SelectLeast(counts.Keys, n, BeforeRel(counts, asc));
    assert |counts.Keys| == |counts|;
  }

  /** The first song of a ranking beats or ties every song of the catalog. */
  lemma RankedHead(counts: map<SongId, nat>, asc: bool, n: nat, r: seq<SongId>)
    requires RankedBy(counts, asc, n, r)
    requires |r| > 0
    ensures forall s :: s in counts ==> Before(counts, asc, r[0], s)
  {
  }

  /** `Get10TopPlayedAsync`: the songs ordered by `Watched` ascending, the first ten taken. */
  method TopPlayed(st: State) returns (r: seq<SongId>)
    ensures RankedBy(st.songs, true, TakeCount, r)
  {
    r := Rank(st.songs, true, TakeCount);
  }

  // ---------------------------------------------------------------------------------------
  // Grouping the like rows

  /** One group of `GroupBy(su => su.SongId)` with its `Count()`. */
  datatype Group = Group(songId: SongId, count: nat)

  /** The song ids that occur in `rows`. */
  function SongsOf(rows: seq<LikeRow>): set<SongId>
    decreases |rows|
  {
    if rows == [] then {} else SongsOf(rows[..|rows| - 1]) + {rows[|rows| - 1].1}
  }

  /** The number of rows naming song `id`. */
  function CountOf(rows: seq<LikeRow>, id: SongId): nat
    decreases |rows|
  {
    if rows == [] then 0
    else CountOf(rows[..|rows| - 1], id) + (if rows[|rows| - 1].1 == id then 1 else 0)
  }

  /** The index of the first row naming song `id`. */
  function FirstIndex(rows: seq<LikeRow>, id: SongId): (k: nat)
    requires id in SongsOf(rows)
    ensures k < |rows| && rows[k].1 == id
    ensures forall i :: 0 <= i < k ==> rows[i].1 != id
    decreases |rows|
  {
    var prefix := rows[..|rows| - 1];
    if id in SongsOf(prefix) then FirstIndex(prefix, id)
    else
      SongsOfMeans(prefix, id);
      |rows| - 1
  }

  lemma {:induction false} SongsOfMeans(rows: seq<LikeRow>, id: SongId)
    ensures id in SongsOf(rows) <==> exists i :: 0 <= i < |rows| && rows[i].1 == id
    decreases |rows|
  {
    if rows != [] {
      var prefix := rows[..|rows| - 1];
      SongsOfMeans(prefix, id);
      if id in SongsOf(prefix) {
        var i :| 0 <= i < |prefix| && prefix[i].1 == id;
        assert rows[i].1 == id;
      }
      if exists i :: 0 <= i < |rows| && rows[i].1 == id {
        var i :| 0 <= i < |rows| && rows[i].1 == id;
        if i < |prefix| {
          assert prefix[i].1 == id;
        }
      }
    }
  }

  lemma {:induction false} CountOfAbsent(rows: seq<LikeRow>, id: SongId)
    requires id !in SongsOf(rows)
    ensures CountOf(rows, id) == 0
    decreases |rows|
  {
    if rows != [] {
      CountOfAbsent(rows[..|rows| - 1], id);
    }
  }

  /** The song ids of the groups, in group order. */
  function GroupKeys(gs: seq<Group>): seq<SongId>
  {
    seq(|gs|, i requires 0 <= i < |gs| => gs[i].songId)
  }

  /** Adds one row for song `id`: counted in its group, or opening a new group at the end. */
  function AddToGroups(gs: seq<Group>, id: SongId): seq<Group>
  {
    if gs == [] then [Group(id, 1)]
    else if gs[0].songId == id then [gs[0].(count := gs[0].count + 1)] + gs[1..]
    else [gs[0]] + AddToGroups(gs[1..], id)
  }

  lemma {:induction false} AddToGroupsEffect(gs: seq<Group>, id: SongId)
    requires Distinct(GroupKeys(gs))
    ensures id !in GroupKeys(gs) ==> AddToGroups(gs, id) == gs + [Group(id, 1)]
    ensures id in GroupKeys(gs) ==>
              var gs' := AddToGroups(gs, id);
              && GroupKeys(gs') == GroupKeys(gs)
              && forall i :: 0 <= i < |gs| ==> gs'[i].count == gs[i].count + (if gs[i].songId == id then 1 else 0)
  {
    if gs != [] {
      var tail := gs[1..];
      assert GroupKeys(tail) == GroupKeys(gs)[1..];
      AddToGroupsEffect(tail, id);
      if gs[0].songId == id {
        assert GroupKeys(gs)[0] == id;
        assert id !in GroupKeys(tail);
        var gs' := AddToGroups(gs, id);
        assert GroupKeys(gs') == GroupKeys(gs);
        forall i | 0 < i < |gs|
          ensures gs'[i] == gs[i] && gs[i].songId != id
        {
          assert GroupKeys(gs)[i] == gs[i].songId;
        }
      } else if id in GroupKeys(gs) {
        assert id in GroupKeys(tail);
        var gs' := AddToGroups(gs, id);
        assert GroupKeys(gs') == [gs[0].songId] + GroupKeys(AddToGroups(tail, id));
      }
    }
  }

  /** `GroupBy(su => su.SongId)` over the rows in their listed order, with each group's count:
      as in LINQ to Objects, groups appear in the order of their key's first occurrence. */
  function GroupBySong(rows: seq<LikeRow>): seq<Group>
    decreases |rows|
  {
    if rows == [] then []
    else AddToGroups(GroupBySong(rows[..|rows| - 1]), rows[|rows| - 1].1)
  }

  /** There is one group per song id of the rows. */
  lemma {:induction false} GroupKeysFacts(rows: seq<LikeRow>)
    ensures var gs := GroupBySong(rows);
            && Distinct(GroupKeys(gs))
            && (forall i :: 0 <= i < |gs| ==> gs[i].songId in SongsOf(rows))
            && (forall id :: id in SongsOf(rows) ==> id in GroupKeys(gs))
            && |gs| == |SongsOf(rows)|
    decreases |rows|
  {
    if rows != [] {
      var prefix := rows[..|rows| - 1];
      var last := rows[|rows| - 1].1;
      var prevGroups := GroupBySong(prefix);
      var gs := GroupBySong(rows);
      GroupKeysFacts(prefix);
      AddToGroupsEffect(prevGroups, last);
      if last in SongsOf(prefix) {
        assert SongsOf(rows) == SongsOf(prefix);
        forall i | 0 <= i < |gs|
          ensures gs[i].songId == prevGroups[i].songId
        {
          assert GroupKeys(gs)[i] == GroupKeys(prevGroups)[i];
        }
      } else {
        assert gs == prevGroups + [Group(last, 1)];
        assert |SongsOf(rows)| == |SongsOf(prefix)| + 1;
        assert GroupKeys(gs) == GroupKeys(prevGroups) + [last];
      }
    }
  }

  /** Each group counts the rows of its song. */
  lemma {:induction false} GroupCountsFacts(rows: seq<LikeRow>)
    ensures var gs := GroupBySong(rows);
            forall i :: 0 <= i < |gs| ==> gs[i].count == CountOf(rows, gs[i].songId)
    decreases |rows|
  {
    if rows != [] {
      var prefix := rows[..|rows| - 1];
      var last := rows[|rows| - 1].1;
      var prevGroups := GroupBySong(prefix);
      var gs := GroupBySong(rows);
      GroupKeysFacts(prefix);
      GroupCountsFacts(prefix);
      AddToGroupsEffect(prevGroups, last);
      if last in SongsOf(prefix) {
        forall i | 0 <= i < |gs|
          ensures gs[i].count == CountOf(rows, gs[i].songId)
        {
          assert GroupKeys(gs)[i] == GroupKeys(prevGroups)[i];
        }
      } else {
        assert gs == prevGroups + [Group(last, 1)];
        CountOfAbsent(prefix, last);
      }
    }
  }

  /** Groups appear in the order of their song's first row. */
  lemma {:induction false} GroupOrderFacts(rows: seq<LikeRow>)
    ensures var gs := GroupBySong(rows);
            forall i, j :: 0 <= i < j < |gs| ==>
              gs[i].songId in SongsOf(rows) && gs[j].songId in SongsOf(rows) &&
              FirstIndex(rows, gs[i].songId) < FirstIndex(rows, gs[j].songId)
    decreases |rows|
  {
    GroupKeysFacts(rows);
    if rows != [] {
      var prefix := rows[..|rows| - 1];
      var last := rows[|rows| - 1].1;
      var prevGroups := GroupBySong(prefix);
      var gs := GroupBySong(rows);
      GroupKeysFacts(prefix);
      GroupOrderFacts(prefix);
      AddToGroupsEffect(prevGroups, last);
      if last in SongsOf(prefix) {
        forall i, j | 0 <= i < j < |gs|
          ensures FirstIndex(rows, gs[i].songId) < FirstIndex(rows, gs[j].songId)
        {
          assert GroupKeys(gs)[i] == GroupKeys(prevGroups)[i];
          assert GroupKeys(gs)[j] == GroupKeys(prevGroups)[j];
        }
      } else {
        assert gs == prevGroups + [Group(last, 1)];
        forall i, j | 0 <= i < j < |gs|
          ensures FirstIndex(rows, gs[i].songId) < FirstIndex(rows, gs[j].songId)
        {
          assert gs[i] == prevGroups[i];
          if j == |gs| - 1 {
            assert FirstIndex(rows, gs[i].songId) == FirstIndex(prefix, gs[i].songId);
          } else {
            assert gs[j] == prevGroups[j];
          }
        }
      }
    }
  }

  /** The first `m` group keys are the `m` song ids whose first row comes earliest, in order. */
  lemma TakenGroups(rows: seq<LikeRow>, m: nat)
    requires m <= |GroupBySong(rows)|
    ensures var taken := GroupKeys(GroupBySong(rows))[..m];
            && Distinct(taken)
            && (forall i :: 0 <= i < m ==> taken[i] in SongsOf(rows))
            && (forall i, j :: 0 <= i < j < m ==> FirstIndex(rows, taken[i]) < FirstIndex(rows, taken[j]))
            && (forall i, id :: 0 <= i < m && id in SongsOf(rows) && id !in taken ==>
                  FirstIndex(rows, taken[i]) < FirstIndex(rows, id))
  {
    var gs := GroupBySong(rows);
    var taken := GroupKeys(gs)[..m];
    GroupKeysFacts(rows);
    GroupOrderFacts(rows);
    forall i, id | 0 <= i < m && id in SongsOf(rows) && id !in taken
      ensures FirstIndex(rows, taken[i]) < FirstIndex(rows, id)
    {
      var j :| 0 <= j < |gs| && GroupKeys(gs)[j] == id;
    }
  }

  /** `Get10MostLikedAsync`, as written: the like rows `rows` (the table in the order the database
      lists it) are grouped by song, and the songs of the first ten groups are fetched one after
      another, the first id without a song making `FirstAsync` throw. The groups are never
      ordered by their counts, since the result of `OrderBy` is discarded; with no groups at
      all, indexing the first one throws. */
  function MostLiked(st: State, rows: seq<LikeRow>): (r: Result<seq<SongId>>)
    ensures rows == [] ==> r == Err(ArgumentOutOfRange)
    ensures rows != [] && r.Err? ==> r.error == SongNotFound
    ensures r.Ok? <==> rows != [] && forall i :: 0 <= i < Min(TakeCount, |GroupBySong(rows)|) ==>
                                         GroupBySong(rows)[i].songId in st.songs
    ensures rows != [] && (forall id :: id in SongsOf(rows) ==> id in st.songs) ==> r.Ok?
    ensures r.Ok? ==> |r.value| == Min(TakeCount, |SongsOf(rows)|)
    ensures r.Ok? ==> Distinct(r.value)
    ensures r.Ok? ==> forall i :: 0 <= i < |r.value| ==> r.value[i] in SongsOf(rows) && r.value[i] in st.songs
    ensures r.Ok? ==> forall i, j :: 0 <= i < j < |r.value| ==>
                        FirstIndex(rows, r.value[i]) < FirstIndex(rows, r.value[j])
    ensures r.Ok? ==> forall i, id :: 0 <= i < |r.value| && id in SongsOf(rows) && id !in r.value ==>
                        FirstIndex(rows, r.value[i]) < FirstIndex(rows, id)
  {
    var songsCounts := GroupBySong(rows);
    GroupKeysFacts(rows);
    assert rows != [] ==> rows[|rows| - 1].1 in SongsOf(rows);
    if |songsCounts| == 0 then
      Err(ArgumentOutOfRange)
    else
      var m := Min(TakeCount, |songsCounts|);
      TakenGroups(rows, m);
      var taken := GroupKeys(songsCounts)[..m];
      assert forall i :: 0 <= i < m ==> taken[i] == songsCounts[i].songId;
      if forall i :: 0 <= i < m ==> taken[i] in st.songs then Ok(taken) else Err(SongNotFound)
  }

  /** The like rows list exactly the like relation, each pair once. */
  ghost predicate IsListing(rows: seq<LikeRow>, likes: set<LikeRow>)
  {
    Distinct(rows) && forall p :: p in likes <==> p in rows
  }

  /** The songs someone likes. */
  function LikedSongs(likes: set<LikeRow>): set<SongId>
  {
    set p | p in likes :: p.1
  }

  lemma ListedSongs(rows: seq<LikeRow>, likes: set<LikeRow>)
    requires IsListing(rows, likes)
    ensures SongsOf(rows) == LikedSongs(likes)
  {
    forall id
      ensures id in SongsOf(rows) <==> id in LikedSongs(likes)
    {
      SongsOfMeans(rows, id);
      if id in LikedSongs(likes) {
        var p :| p in likes && p.1 == id;
        var i :| 0 <= i < |rows| && rows[i] == p;
      }
    }
  }

  /** In a consistent database the query fails exactly when nobody likes anything, and it
      returns only songs someone likes. */
  lemma MostLikedOnValidState(st: State, rows: seq<LikeRow>)
    requires Valid(st)
    requires IsListing(rows, st.likes)
    ensures MostLiked(st, rows).Ok? <==> st.likes != {}
    ensures st.likes == {} ==> MostLiked(st, rows) == Err(ArgumentOutOfRange)
    ensures var r := MostLiked(st, rows);
            r.Ok? ==> forall i :: 0 <= i < |r.value| ==> r.value[i] in LikedSongs(st.likes)
  {
    ListedSongs(rows, st.likes);
    if st.likes != {} {
      var p :| p in st.likes;
      assert p in rows;
      forall id | id in SongsOf(rows)
        ensures id in st.songs
      {
        var q :| q in st.likes && q.1 == id;
      }
    }
  }

  // ---------------------------------------------------------------------------------------
  // Listening history

  /** The songs user `user` has a play log for. */
  function PlayedBy(st: State, user: UserId): set<SongId>
  {
    set k | k in st.logs && k.0 == user :: k.1
  }

  /** Compares two of the user's songs by comparing their play logs with `leq`. */
  function LogOrder(st: State, user: UserId, leq: (PlayLog, PlayLog) -> bool): (SongId, SongId) -> bool
  {
    (a, b) => (user, a) in st.logs && (user, b) in st.logs && leq(LogOf(st, user, a), LogOf(st, user, b))
  }

  /** `h` lists each song of the user's play logs once, sorted by their logs under `leq`. */
  ghost predicate IsHistory(st: State, user: UserId, leq: (PlayLog, PlayLog) -> bool, h: seq<SongId>)
  {
    && Distinct(h)
    && (forall i :: 0 <= i < |h| ==> (user, h[i]) in st.logs)
    && (forall s :: (user, s) in st.logs ==> s in h)
    && (forall i, j :: 0 <= i < j < |h| ==> leq(LogOf(st, user, h[i]), LogOf(st, user, h[j])))
  }

  lemma LogOrderIsPreorder(st: State, user: UserId, leq: (PlayLog, PlayLog) -> bool)
    requires TotalPreorderOn(AllLogs(st), leq)
    ensures TotalPreorderOn(PlayedBy(st, user), LogOrder(st, user, leq))
  {
    forall s | s in PlayedBy(st, user)
      ensures (user, s) in st.logs && LogOf(st, user, s) in AllLogs(st)
    {
      var k :| k in st.logs && k.0 == user && k.1 == s;
      assert LogOf(st, user, s) == PlayLog(k.0, k.1, st.logs[k]);
    }
  }

  /** `GetListeningHistoryAsync(email)`: the user's play logs sorted with the comparator `leq`
      (`SongLastPlayedCompare`, whose body is not part of this model) and projected to their
      songs. `List.Sort` is not stable, so logs that compare equal come in an unspecified order. */
  method History(st: State, email: Email, leq: (PlayLog, PlayLog) -> bool) returns (r: Result<seq<SongId>>)
    requires TotalPreorderOn(AllLogs(st), leq)
    ensures r.Ok? <==> email in st.users
    ensures r.Err? ==> r.error == UserNotFound
    ensures r.Ok? ==> IsHistory(st, st.users[email], leq, r.value)
    ensures r.Ok? ==> |r.value| == |PlayedBy(st, st.users[email])|
  {
    if email !in st.users {
      return Err(UserNotFound);
    }
    var user := st.users[email];
    var played := PlayedBy(st, user);
    LogOrderIsPreorder(st, user, leq);
    var sorted := SelectLeast(played, |played|, LogOrder(st, user, leq));
    forall s | (user, s) in st.logs
      ensures s in played
    {
      var k := (user, s);
      assert k in st.logs && k.0 == user;
    }
    forall i | 0 <= i < |sorted|
      ensures (user, sorted[i]) in st.logs
    {
      assert sorted[i] in played;
    }
    r := Ok(sorted);
  }

  /** A most-recent-first comparator, one possible `SongLastPlayedCompare`. */
  function NewestFirst(a: PlayLog, b: PlayLog): bool
  {
    a.timePlayed >= b.timePlayed
  }

  lemma NewestFirstIsPreorder(st: State)
    ensures TotalPreorderOn(AllLogs(st), NewestFirst)
  {
  }

  /** The state after user 1 plays song 10 at time 1, song 20 at time 2 and song 10 again at
      time 3, starting from no plays. */
  function ThreePlays(): State
  {
    var s0 := State(map["ann" := 1], map[10 := 0, 20 := 0], map[], {});
    var s1 := Persisted(s0, RecordPlay(s0, 10, "ann", 1));
    var s2 := Persisted(s1, RecordPlay(s1, 20, "ann", 2));
    Persisted(s2, RecordPlay(s2, 10, "ann", 3))
  }

  /** After those plays, a most-recent-first history is [10, 20]: the replayed song is listed once,
      ahead of the song played in between. */
  lemma HistoryOfReplays(h: seq<SongId>)
    requires IsHistory(ThreePlays(), 1, NewestFirst, h)
    ensures h == [10, 20]
  {
    var st := ThreePlays();
    assert st.logs == map[(1, 10) := 3, (1, 20) := 2];
    assert 10 in h && 20 in h;
    var a :| 0 <= a < |h| && h[a] == 10;
    var b :| 0 <= b < |h| && h[b] == 20;
    assert forall i :: 0 <= i < |h| ==> h[i] == 10 || h[i] == 20;
    DistinctCardinality(h);
    SubsetCardinality(set x | x in h, {10, 20});
    assert |h| == 2;
    assert NewestFirst(LogOf(st, 1, h[0]), LogOf(st, 1, h[1]));
  }
}
