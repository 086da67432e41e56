/**
 The repository's writes to engagement state and its like-membership check: recording a play
 (`AddSongToSongLogAsync`), toggling a like (`AddOrRemoveSongToLikesAsync`), removing a like
 (`RemoveSongFromLikesAsync`) and asking whether a song is liked (`CheckSongsUserAsync`).

 Each write returns either the saved state with the string the call returns, or the failure
 whose exception stopped it before `SaveChangesAsync`, in which case nothing is saved.
 */
module Engagement {
  import opened Store

  /** What `RemoveSongFromLikesAsync` returns when there is no like to remove. */
  const NotOnList := "Song Is Not On List"

  /** `after` holds the same songs as `before`, with exactly one more play of `id`. */
  ghost predicate CountBumped(before: map<SongId, nat>, after: map<SongId, nat>, id: SongId)
  {
    && after.Keys == before.Keys
    && id in before
    && after[id] == before[id] + 1
    && forall s :: s in before && s != id ==> after[s] == before[s]
  }

  /** `after` is `before` with the entry for `key` created or overwritten with `now`. */
  ghost predicate LogUpserted(before: map<(UserId, SongId), Time>, after: map<(UserId, SongId), Time>,
                              key: (UserId, SongId), now: Time)
  {
    && after.Keys == before.Keys + {key}
    && after[key] == now
    && forall k :: k in before && k != key ==> after[k] == before[k]
  }

  /** `AddSongToSongLogAsync(songId, email)` at time `now`. The song is dereferenced first, so a
      missing song fails even when the user is missing too. */
  function RecordPlay(st: State, songId: SongId, email: Email, now: Time): (r: Result<Step>)
    ensures r.Ok? <==> songId in st.songs && email in st.users
    ensures songId !in st.songs ==> r == Err(SongNotFound)
    ensures songId in st.songs && email !in st.users ==> r == Err(UserNotFound)
    ensures r.Ok? ==> r.value.message == ""
    ensures r.Ok? ==> CountBumped(st.songs, r.value.state.songs, songId)
    ensures r.Ok? ==> LogUpserted(st.logs, r.value.state.logs, (st.users[email], songId), now)
    ensures r.Ok? ==> r.value.state.users == st.users && r.value.state.likes == st.likes
  {
    if songId !in st.songs then Err(SongNotFound)
    else if email !in st.users then Err(UserNotFound)
    else
      var key := (st.users[email], songId);
      Ok(Step(st.(songs := st.songs[songId := st.songs[songId] + 1], logs := st.logs[key := now]), ""))
  }

  /** A play is an upsert, not an append: the log table grows by one row on the first play of
      a song by a user and keeps its size on every later play. */
  lemma RecordPlayUpserts(st: State, songId: SongId, email: Email, now: Time)
    requires songId in st.songs && email in st.users
    ensures var r := RecordPlay(st, songId, email, now);
            var key := (st.users[email], songId);
            && r.Ok?
            && |r.value.state.logs| == |st.logs| + (if key in st.logs then 0 else 1)
  {
  }

  /** Recording a play keeps the database's referential integrity. */
  lemma RecordPlayKeepsValid(st: State, songId: SongId, email: Email, now: Time)
    requires Valid(st)
    ensures Valid(Persisted(st, RecordPlay(st, songId, email, now)))
  {
  }

  /** Plays of one song by one user at the successive times `times`. */
  function RecordPlays(st: State, songId: SongId, email: Email, times: seq<Time>): Result<State>
    decreases |times|
  {
    if times == [] then Ok(st)
    else
      match RecordPlay(st, songId, email, times[0])
      case Err(e) => Err(e)
      case Ok(step) => RecordPlays(step.state, songId, email, times[1..])
  }

  /** `k` plays raise the song's count by exactly `k`, leave every other count alone, and leave
      exactly one log row for the pair, holding the time of the last play. */
  lemma {:induction false} RepeatedPlays(st: State, songId: SongId, email: Email, times: seq<Time>)
    requires songId in st.songs && email in st.users
    ensures var r := RecordPlays(st, songId, email, times);
            var key := (st.users[email], songId);
            && r.Ok?
            && r.value.users == st.users && r.value.likes == st.likes
            && r.value.songs.Keys == st.songs.Keys
            && r.value.songs[songId] == st.songs[songId] + |times|
            && (forall s :: s in st.songs && s != songId ==> r.value.songs[s] == st.songs[s])
            && (forall k :: k in st.logs && k != key ==> k in r.value.logs && r.value.logs[k] == st.logs[k])
            && (forall k :: k in r.value.logs && k != key ==> k in st.logs)
            && (|times| > 0 ==> key in r.value.logs && r.value.logs[key] == times[|times| - 1])
            && (|times| == 0 ==> r.value.logs == st.logs)
    decreases |times|
  {
    if times != [] {
      var step := RecordPlay(st, songId, email, times[0]).value;
      RepeatedPlays(step.state, songId, email, times[1..]);
      if |times| == 1 {
        assert times[1..] == [];
      } else {
        assert times[1..][|times[1..]| - 1] == times[|times| - 1];
      }
    }
  }

  /** Plays by a missing user or of a missing song fail, whatever their number. */
  lemma {:induction false} RepeatedPlaysFail(st: State, songId: SongId, email: Email, times: seq<Time>)
    requires |times| > 0
    requires songId !in st.songs || email !in st.users
    ensures RecordPlays(st, songId, email, times).Err?
    decreases |times|
  {
  }

  /** `CheckSongsUserAsync(songId, email)`: whether the user likes the song. `SingleAsync` throws
      when no user has that e-mail, and the exception is rethrown. */
  function CheckLiked(st: State, songId: SongId, email: Email): (r: Result<bool>)
    ensures r.Ok? <==> email in st.users
    ensures r.Err? ==> r.error == UserNotFound
    ensures r.Ok? ==> (r.value <==> (st.users[email], songId) in st.likes)
  {
    if email !in st.users then Err(UserNotFound)
    else Ok((st.users[email], songId) in st.likes)
  }

  /** `AddOrRemoveSongToLikesAsync(songId, email)`: flips one pair of the like relation. The song
      is not looked up, so any song id is accepted. */
  function ToggleLike(st: State, songId: SongId, email: Email): (r: Result<Step>)
    ensures r.Ok? <==> email in st.users
    ensures r.Err? ==> r.error == UserNotFound
    ensures r.Ok? ==> r.value.message == ""
    ensures r.Ok? ==> var after := r.value.state;
                      after.users == st.users && after.songs == st.songs && after.logs == st.logs
    ensures r.Ok? ==> forall p :: p in r.value.state.likes <==> ((p == (st.users[email], songId)) != (p in st.likes))
  {
    if email !in st.users then Err(UserNotFound)
    else
      var key := (st.users[email], songId);
      var likes := if key in st.likes then st.likes - {key} else st.likes + {key};
      Ok(Step(st.(likes := likes), ""))
  }

  /** After a toggle the membership check answers the opposite of what it answered before. */
  lemma ToggleFlipsCheck(st: State, songId: SongId, email: Email)
    requires email in st.users
    ensures var before := CheckLiked(st, songId, email);
            var after := CheckLiked(ToggleLike(st, songId, email).value.state, songId, email);
            before.Ok? && after.Ok? && after.value == !before.value
  {
  }

  /** Toggling twice restores the original state. */
  lemma ToggleTwice(st: State, songId: SongId, email: Email)
    requires email in st.users
    ensures var once := ToggleLike(st, songId, email).value.state;
            ToggleLike(once, songId, email) == Ok(Step(st, ""))
  {
    var key := (st.users[email], songId);
    var once := ToggleLike(st, songId, email).value.state;
    var twice := ToggleLike(once, songId, email).value.state;
    assert twice.likes == st.likes by {
      forall p
        ensures p in twice.likes <==> p in st.likes
      {
      }
    }
  }

  /** Toggling the like of an existing song keeps referential integrity. */
  lemma ToggleLikeKeepsValid(st: State, songId: SongId, email: Email)
    requires Valid(st)
    requires songId in st.songs
    ensures Valid(Persisted(st, ToggleLike(st, songId, email)))
  {
  }

  /** `RemoveSongFromLikesAsync(songId, email)`: deletes the like when there is one and answers
      `NotOnList` otherwise. */
  function RemoveLike(st: State, songId: SongId, email: Email): (r: Result<Step>)
    ensures r.Ok? <==> email in st.users
    ensures r.Err? ==> r.error == UserNotFound
    ensures r.Ok? && (st.users[email], songId) in st.likes ==>
              var after := r.value.state;
              && r.value.message == ""
              && (st.users[email], songId) !in after.likes
              && after.likes + {(st.users[email], songId)} == st.likes
              && after.users == st.users && after.songs == st.songs && after.logs == st.logs
    ensures r.Ok? && (st.users[email], songId) !in st.likes ==>
              r.value.message == NotOnList && r.value.state == st
  {
    if email !in st.users then Err(UserNotFound)
    else
      var key := (st.users[email], songId);
      if key in st.likes then Ok(Step(st.(likes := st.likes - {key}), ""))
      else Ok(Step(st, NotOnList))
  }

  /** A second removal finds nothing to remove and saves the same state as the first. */
  lemma RemoveIdempotent(st: State, songId: SongId, email: Email)
    requires email in st.users
    ensures var once := RemoveLike(st, songId, email).value.state;
            RemoveLike(once, songId, email) == Ok(Step(once, NotOnList))
  {
  }

  /** On a liked song, removing and toggling save the same state; afterwards it is not liked. */
  lemma RemoveMatchesToggleWhenLiked(st: State, songId: SongId, email: Email)
    requires CheckLiked(st, songId, email) == Ok(true)
    ensures RemoveLike(st, songId, email) == ToggleLike(st, songId, email)
    ensures CheckLiked(RemoveLike(st, songId, email).value.state, songId, email) == Ok(false)
  {
  }

  /** The membership check says a song is liked exactly when removing it would delete a like
      rather than answer `NotOnList`. */
  lemma CheckMatchesRemove(st: State, songId: SongId, email: Email)
    ensures CheckLiked(st, songId, email).Ok? <==> RemoveLike(st, songId, email).Ok?
    ensures CheckLiked(st, songId, email) == Ok(true) <==>
              RemoveLike(st, songId, email).Ok? && RemoveLike(st, songId, email).value.message == ""
  {
  }

  /** Removing a like keeps referential integrity. */
  lemma RemoveLikeKeepsValid(st: State, songId: SongId, email: Email)
    requires Valid(st)
    ensures Valid(Persisted(st, RemoveLike(st, songId, email)))
  {
  }
}
