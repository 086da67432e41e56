/**
 The persisted engagement state behind the song repository, as an immutable value.

 The database tables the repository touches are abstracted to four collections:
 - `users`: the Users table keyed by e-mail (the e-mail lookups expect at most one match); an
   `Email` key stands for an e-mail as the database compares it, so two spellings its collation
   treats as equal are one key here,
 - `songs`: the Songs table, reduced to each song's play counter `Watched`,
 - `logs`: the SongPlayedLogs table, one `TimePlayed` per (user, song) pair,
 - `likes`: the SongsUsers table, a presence-only relation between users and songs.
 */
module Store {

  type Email = string
  /** Only compared for equality. */
  type UserId = int
  type SongId = int
  /** A `DateTime` value, as a tick count. */
  type Time = int

  /** Why an operation failed; each case stands for the exception the repository catches. */
  datatype Failure =
    | UserNotFound        // the user lookup found nothing and `user.Id` was dereferenced
    | SongNotFound        // the song lookup found nothing (`song.Watched`, or `FirstAsync` over no rows)
    | ArgumentOutOfRange  // `songsCounts[0]` on an empty list: `ArgumentOutOfRangeException`

  /** `Err` stands for the caught exception: a `null` list or the exception message. */
  datatype Result<+T> = Ok(value: T) | Err(error: Failure)

  /** A row of SongsUsers, as the pair (user id, song id). */
  type LikeRow = (UserId, SongId)

  datatype State = State(
    users: map<Email, UserId>,
    songs: map<SongId, nat>,
    logs: map<(UserId, SongId), Time>,
    likes: set<LikeRow>)

  /** A successful write: the state saved by `SaveChangesAsync` and the string the call returns. */
  datatype Step = Step(state: State, message: string)

  /** One row of SongPlayedLogs. */
  datatype PlayLog = PlayLog(userId: UserId, songId: SongId, timePlayed: Time)

  /** The state the database holds after a write: a failed call never reaches `SaveChangesAsync`. */
  function Persisted(st: State, r: Result<Step>): (st': State)
    ensures r.Err? ==> st' == st
    ensures r.Ok? ==> st' == r.value.state
  {
    match r
    case Ok(step) => step.state
    case Err(_) => st
  }

  /** The play-log row stored for a (user, song) key. */
  function LogOf(st: State, user: UserId, song: SongId): (l: PlayLog)
    requires (user, song) in st.logs
    ensures l.userId == user && l.songId == song && l.timePlayed == st.logs[(user, song)]
  {
    PlayLog(user, song, st.logs[(user, song)])
  }

  /** Every play-log row of the database. */
  function AllLogs(st: State): set<PlayLog>
  {
    set k | k in st.logs :: PlayLog(k.0, k.1, st.logs[k])
  }

  /** Referential integrity, which the database's foreign keys maintain: every like and every
      play log names an existing user and an existing song. */
  ghost predicate Valid(st: State)
  {
    && (forall p :: p in st.likes ==> p.0 in st.users.Values && p.1 in st.songs)
    && (forall k :: k in st.logs ==> k.0 in st.users.Values && k.1 in st.songs)
  }
}
