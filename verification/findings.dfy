/**
 Where the rankings as written depart from what their names promise, shown on concrete inputs,
 next to corrected rankings with the intended property proved:
 - `Get10TopPlayedAsync` orders by `Watched` ascending, so it lists the least played songs;
 - `Get10MostLikedAsync` discards the result of `OrderBy`, so like counts play no part;
 - `Get10MostLikedAsync` throws on an empty like table instead of returning no songs.
 */
module Findings {
  import opened Store
  import opened Ordering
  import opened Rankings

  // ---------------------------------------------------------------------------------------
  // Top played

  /** With an unplayed song and a song played five times, every answer of the query as written
      puts the unplayed song first. */
  lemma TopPlayedListsLeastPlayedFirst(r: seq<SongId>)
    requires RankedBy(map[1 := 0, 2 := 5], true, TakeCount, r)
    ensures r == [1, 2]
  {
    var counts: map<SongId, nat> := map[1 := 0, 2 := 5];
    assert counts.Keys == {1, 2};
    assert |r| == 2;
    assert r[0] != r[1];
    assert Before(counts, true, r[0], r[1]);
  }

  /** Once the catalog holds more than ten songs, a song played strictly more often than every
      other song is never among the "top played" as written. */
  lemma TopPlayedOmitsMostPlayed(songs: map<SongId, nat>, top: SongId, r: seq<SongId>)
    requires RankedBy(songs, true, TakeCount, r)
    requires |songs| > TakeCount
    requires top in songs && forall s :: s in songs && s != top ==> songs[s] < songs[top]
    ensures top !in r
  {
    DistinctCardinality(r);
    var taken := set x | x in r;
    assert |songs.Keys| == |songs|;
    var s := Outside(songs.Keys, taken);
    assert Before(songs, true, top, s) ==> songs[top] <= songs[s];
  }

  /** Top played as evidently intended: ordered by `Watched` descending, the first ten taken.
      Its first song is played at least as often as every song of the catalog. */
  method TopPlayedCorrected(st: State) returns (r: seq<SongId>)
    ensures RankedBy(st.songs, false, TakeCount, r)
    ensures |r| > 0 ==> forall s :: s in st.songs ==> st.songs[s] <= st.songs[r[0]]
    ensures |st.songs| > TakeCount ==>
              forall top :: top in st.songs && (forall s :: s in st.songs && s != top ==> st.songs[s] < st.songs[top])
                ==> top in r
  {
    r := Rank(st.songs, false, TakeCount);
    if |r| > 0 {
      RankedHead(st.songs, false, TakeCount, r);
    }
    forall top | top in st.songs && (forall s :: s in st.songs && s != top ==> st.songs[s] < st.songs[top])
      ensures top in r
    {
      assert top in st.songs.Keys && |st.songs.Keys| == |st.songs|;
      assert |r| > 0;
      assert Before(st.songs, false, r[0], top);
    }
  }

  // ---------------------------------------------------------------------------------------
  // Most liked

  /** Song 2 has two likes and song 1 one, yet the query as written lists song 1 first, because
      song 1's like is listed first and the groups are never sorted. */
  lemma MostLikedIgnoresCounts()
    ensures var st := State(map["ann" := 7, "bob" := 8], map[1 := 0, 2 := 0], map[], {(7, 1), (7, 2), (8, 2)});
            var rows: seq<LikeRow> := [(7, 1), (7, 2), (8, 2)];
            && Valid(st)
            && IsListing(rows, st.likes)
            && CountOf(rows, 1) < CountOf(rows, 2)
            && MostLiked(st, rows) == Ok([1, 2])
  {
    var st := State(map["ann" := 7, "bob" := 8], map[1 := 0, 2 := 0], map[], {(7, 1), (7, 2), (8, 2)});
    var rows: seq<LikeRow> := [(7, 1), (7, 2), (8, 2)];
    var one: seq<LikeRow> := [(7, 1)];
    var two: seq<LikeRow> := [(7, 1), (7, 2)];
    assert 7 == st.users["ann"] && 8 == st.users["bob"];
    assert rows[..2] == two && two[..1] == one && one[..0] == [];
    assert GroupBySong(one) == [Group(1, 1)];
    assert AddToGroups([Group(1, 1)], 2) == [Group(1, 1), Group(2, 1)];
    assert GroupBySong(two) == [Group(1, 1), Group(2, 1)];
    assert AddToGroups([Group(2, 1)], 2) == [Group(2, 2)];
    assert AddToGroups([Group(1, 1), Group(2, 1)], 2) == [Group(1, 1), Group(2, 2)];
    assert GroupBySong(rows) == [Group(1, 1), Group(2, 2)];
    assert GroupKeys([Group(1, 1), Group(2, 2)]) == [1, 2];
    assert CountOf(one, 1) == 1 && CountOf(two, 1) == 1 && CountOf(rows, 1) == 1;
    assert CountOf(one, 2) == 0 && CountOf(two, 2) == 1 && CountOf(rows, 2) == 2;
    assert Valid(st);
    assert IsListing(rows, st.likes);
    assert GroupKeys(GroupBySong(rows))[..Min(TakeCount, 2)] == [1, 2];
  }

  /** The users who like song `id`. */
  function LikersOf(likes: set<LikeRow>, id: SongId): set<LikeRow>
  {
    set p | p in likes && p.1 == id
  }

  /** Over a listing of the like table, a group's row count is the song's number of likes. */
  lemma {:induction false} ListedCounts(rows: seq<LikeRow>, likes: set<LikeRow>, id: SongId)
    requires IsListing(rows, likes)
    ensures CountOf(rows, id) == |LikersOf(likes, id)|
    decreases |rows|
  {
    if rows == [] {
      assert LikersOf(likes, id) == {};
    } else {
      var prefix := rows[..|rows| - 1];
      var last := rows[|rows| - 1];
      assert last !in prefix;
      assert IsListing(prefix, likes - {last});
      ListedCounts(prefix, likes - {last}, id);
      if last.1 == id {
        assert LikersOf(likes, id) == LikersOf(likes - {last}, id) + {last};
      } else {
        assert LikersOf(likes, id) == LikersOf(likes - {last}, id);
      }
    }
  }

  lemma {:induction false} CountOfPresent(rows: seq<LikeRow>, id: SongId)
    requires id in SongsOf(rows)
    ensures CountOf(rows, id) >= 1
    decreases |rows|
  {
    var prefix := rows[..|rows| - 1];
    if id in SongsOf(prefix) {
      CountOfPresent(prefix, id);
    }
  }

  /** The like count of every liked song: the counts the grouping computes. */
  function LikeCounts(rows: seq<LikeRow>): (counts: map<SongId, nat>)
    ensures counts.Keys == SongsOf(rows)
    ensures forall id :: id in counts ==> counts[id] >= 1
    ensures forall g :: g in GroupBySong(rows) ==> g.songId in counts && counts[g.songId] == g.count
  {
    GroupKeysFacts(rows);
    GroupCountsFacts(rows);
    forall id | id in SongsOf(rows)
      ensures CountOf(rows, id) >= 1
    {
      CountOfPresent(rows, id);
    }
    map id | id in SongsOf(rows) :: CountOf(rows, id)
  }

  /** Most liked as evidently intended: liked songs ordered by like count descending, the first
      ten fetched. An empty like table gives no songs rather than a failure, and songs nobody
      likes never appear. */
  method MostLikedCorrected(st: State, rows: seq<LikeRow>) returns (r: Result<seq<SongId>>)
    ensures rows == [] ==> r == Ok([])
    ensures r.Err? ==> r.error == SongNotFound
    ensures (forall id :: id in SongsOf(rows) ==> id in st.songs) ==> r.Ok?
    ensures r.Ok? ==> RankedBy(LikeCounts(rows), false, TakeCount, r.value)
    ensures r.Ok? ==> forall i :: 0 <= i < |r.value| ==> r.value[i] in st.songs && CountOf(rows, r.value[i]) >= 1
  {
    var counts := LikeCounts(rows);
    var ranked := Rank(counts, false, TakeCount);
    if forall i :: 0 <= i < |ranked| ==> ranked[i] in st.songs {
      r := Ok(ranked);
    } else {
      r := Err(SongNotFound);
    }
  }

  /** In a consistent database the corrected query never fails, and it ranks by the number of
      users who like each song. */
  lemma MostLikedCorrectedRanksByLikes(st: State, rows: seq<LikeRow>)
    requires Valid(st)
    requires IsListing(rows, st.likes)
    ensures forall id :: id in SongsOf(rows) ==> id in st.songs
    ensures forall id :: id in LikeCounts(rows) ==> LikeCounts(rows)[id] == |LikersOf(st.likes, id)|
  {
    ListedSongs(rows, st.likes);
    forall id | id in SongsOf(rows)
      ensures id in st.songs
    {
      var q :| q in st.likes && q.1 == id;
    }
    forall id | id in LikeCounts(rows)
      ensures LikeCounts(rows)[id] == |LikersOf(st.likes, id)|
    {
      ListedCounts(rows, st.likes, id);
    }
  }
}
