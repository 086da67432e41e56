# Song engagement: a Dafny model of the song repository's play counts, likes and rankings

This project models the engagement logic of `SongRepository` in the MusicApp Web API. The
database holds four things this logic reads and writes:

- the users, looked up by e-mail (`Users`);
- each song's play counter `Watched` (`Songs`);
- one play log per (user, song) with the last `TimePlayed` (`SongPlayedLogs`);
- the like relation between users and songs (`SongsUsers`).

The model abstracts these to an immutable `Store.State` of maps and a set. It covers the three
writes and the four queries over that state:

- `AddSongToSongLogAsync`: `Engagement.RecordPlay` bumps a song's play count and upserts the
  play log.
- `AddOrRemoveSongToLikesAsync`: `Engagement.ToggleLike` flips one like.
- `RemoveSongFromLikesAsync`: `Engagement.RemoveLike` deletes a like if it is present.
- `CheckSongsUserAsync`: `Engagement.CheckLiked` tests like membership.
- `Get10TopPlayedAsync`: `Rankings.TopPlayed` orders by `Watched` and takes ten.
- `Get10MostLikedAsync`: `Rankings.MostLiked` groups the like rows by song and fetches the
  songs of the first ten groups.
- `GetListeningHistoryAsync`: `Rankings.History` sorts the user's play logs and projects them
  to songs.

Each write is a pure function. It returns either `Ok(Step(state, message))` or `Err(failure)`:
- `state` is what `SaveChangesAsync` stores.
- `message` is the string the C# method returns (`""` or `"Song Is Not On List"`).
- `failure` names the exception the method catches, such as a null user or song being
  dereferenced.

A failing call carries no state, because the exception is thrown before `SaveChangesAsync`.
`Store.Persisted` gives the database contents after any call. `DateTime.Now` is the explicit
parameter `now`.

Two queries leave the order of some results open:
- The database's `ORDER BY` does not fix the order of songs with equal play counts.
- `List.Sort` is unstable, so it does not fix the order of equal play logs.

These queries are therefore methods built on `Ordering.SelectLeast`. It repeatedly takes a
least remaining element and chooses freely among ties. Their contracts are the predicates
`Rankings.RankedBy` and `Rankings.IsHistory`, which every admissible answer satisfies. The
order in which the database lists the like table is the parameter `rows` of `MostLiked`.
`Rankings.IsListing` relates `rows` to the like set.

The code is modelled as written. The top-played query sorts ascending, so it returns the least
played songs. The most-liked query discards the result of `OrderBy`, so it ignores like counts.
The code itself points to a different intent. The method names `Get10TopPlayedAsync` (line 145)
and `Get10MostLikedAsync` (line 157) promise the highest counts first. The guard
`i + 1 == songsCounts.Count` (line 172) stops the loop when the groups run out, which suggests
that fewer than ten groups, down to none, should give a shorter list rather than a failure.
Where the code and that intent disagree, the model follows the code. The module `Findings`
shows each discrepancy on concrete inputs and gives corrected versions with the intended
property proved.

Files: `store.dfy` (state and results), `ordering.dfy` (preorders, selection, cardinality
facts), `engagement.dfy` (writes and the membership check), `rankings.dfy` (queries),
`findings.dfy` (discrepancies and corrections).

## Model

| member | source | states |
|---|---|---|
| Engagement.RecordPlay | MusicApp-API/MusicApp.WebApi/Repositories/SongRepository.cs:220-253 | Succeeds exactly when both the song and the e-mail's user exist. A missing song fails as `SongNotFound` even if the user is missing too, because `song.Watched++` runs before `user.Id`. A missing user with an existing song fails as `UserNotFound`. On success: the reply is `""`; the song's count rises by exactly 1 and no other count changes; the (user, song) log is created or overwritten with `now` and no other log changes; users and likes are untouched |
| Engagement.RecordPlayUpserts | MusicApp-API/MusicApp.WebApi/Repositories/SongRepository.cs:228-243 | A play is an upsert. The log table gains exactly one row on a user's first play of a song and keeps its size on every later play |
| Engagement.RecordPlayKeepsValid | MusicApp-API/MusicApp.WebApi/Repositories/SongRepository.cs:224-245 | Recording a play preserves referential integrity: every like and log names an existing user and song. This holds whether the call succeeds or fails |
| Engagement.RepeatedPlays | MusicApp-API/MusicApp.WebApi/Repositories/SongRepository.cs:224-246 | k successful plays of one song by one user raise its count by exactly k and leave other counts alone. They leave exactly one log row for the pair, holding the last play's time. Other log rows, users and likes are unchanged |
| Engagement.RepeatedPlaysFail | MusicApp-API/MusicApp.WebApi/Repositories/SongRepository.cs:224-228 | Any non-empty run of plays by an unknown user or of an unknown song fails |
| Engagement.CheckLiked | MusicApp-API/MusicApp.WebApi/Repositories/SongRepository.cs:123-141 | Fails as `UserNotFound` exactly when no user has the e-mail, because `SingleAsync` throws and the exception is rethrown. Otherwise it answers true exactly when the (user, song) pair is in the like table. `ToggleFlipsCheck` and `CheckMatchesRemove` relate this answer to the writes |
| Engagement.ToggleLike | MusicApp-API/MusicApp.WebApi/Repositories/SongRepository.cs:254-275 | Fails exactly when the e-mail is unknown. On success the reply is `""`. A pair is in the new like set exactly when it is the (user, song) pair XOR it was in the old set. Users, songs and logs are untouched |
| Engagement.ToggleFlipsCheck | MusicApp-API/MusicApp.WebApi/Repositories/SongRepository.cs:258-268 | After a toggle, the membership check of lines 128-135 answers the negation of its previous answer |
| Engagement.ToggleTwice | MusicApp-API/MusicApp.WebApi/Repositories/SongRepository.cs:258-269 | Toggling the same like twice restores the original state exactly |
| Engagement.ToggleLikeKeepsValid | MusicApp-API/MusicApp.WebApi/Repositories/SongRepository.cs:258-268 | Toggling the like of an existing song preserves referential integrity |
| Engagement.RemoveLike | MusicApp-API/MusicApp.WebApi/Repositories/SongRepository.cs:296-314 | Fails exactly when the e-mail is unknown. If the pair is liked, it is deleted with reply `""` and nothing else changes. If it is not liked, the reply is `"Song Is Not On List"` and the state is unchanged |
| Engagement.RemoveIdempotent | MusicApp-API/MusicApp.WebApi/Repositories/SongRepository.cs:300-308 | A second removal answers `"Song Is Not On List"` and leaves the state the first one saved |
| Engagement.RemoveMatchesToggleWhenLiked | MusicApp-API/MusicApp.WebApi/Repositories/SongRepository.cs:300-306 | On a liked song, removing and toggling give the same result. Afterwards the check answers false |
| Engagement.CheckMatchesRemove | MusicApp-API/MusicApp.WebApi/Repositories/SongRepository.cs:128-135 | The check and removal fail on the same inputs. The check answers true exactly when removal deletes a like (reply `""`) |
| Engagement.RemoveLikeKeepsValid | MusicApp-API/MusicApp.WebApi/Repositories/SongRepository.cs:300-306 | Removing a like preserves referential integrity |
| Ordering.SelectLeast | MusicApp-API/MusicApp.WebApi/Repositories/SongRepository.cs:71 | Sorting with an arbitrary total preorder and taking n: returns min(n, size) distinct elements of the set, in order. No element left out comes strictly before a taken one. When n covers the set, every element is returned |
| Ordering.LeastExists | MusicApp-API/MusicApp.WebApi/Repositories/SongRepository.cs:71 | Every finite non-empty set has a least element under a total preorder, so the sort can always choose a next element |
| Rankings.TopPlayed | MusicApp-API/MusicApp.WebApi/Repositories/SongRepository.cs:145-155 | Returns exactly min(10, catalog size) distinct catalog songs, ordered by `Watched` ascending as written, with ties in any order. Every song left out has a count at least that of every song taken |
| Rankings.RankedHead | MusicApp-API/MusicApp.WebApi/Repositories/SongRepository.cs:149 | The first song of such a ranking has the smallest count in the catalog (the largest, for a descending ranking) |
| Rankings.GroupKeysFacts | MusicApp-API/MusicApp.WebApi/Repositories/SongRepository.cs:162-164 | `GroupBy(su => su.SongId)` yields one group per song id of the like rows, with no id twice. The number of groups is the number of distinct liked songs |
| Rankings.GroupCountsFacts | MusicApp-API/MusicApp.WebApi/Repositories/SongRepository.cs:162-163 | Each group's `Count()` is the number of rows naming its song |
| Rankings.GroupOrderFacts | MusicApp-API/MusicApp.WebApi/Repositories/SongRepository.cs:162 | Groups are in the order in which their song first occurs in the rows, as LINQ to Objects orders them |
| Rankings.TakenGroups | MusicApp-API/MusicApp.WebApi/Repositories/SongRepository.cs:168-176 | The first m group keys are distinct liked songs, in first-occurrence order. No liked song left out occurs before a taken one |
| Rankings.MostLiked | MusicApp-API/MusicApp.WebApi/Repositories/SongRepository.cs:157-183 | An empty like table fails as `ArgumentOutOfRange` (`songsCounts[0]` is read with no groups). Otherwise the call succeeds exactly when the songs of the first min(10, k) groups all exist, where k is the number of liked songs; a missing song beyond those groups is never fetched and cannot fail the call. The only other failure is `SongNotFound`. On success it returns min(10, k) distinct liked songs: the songs with the earliest first like rows, in first-occurrence order. Like counts play no part |
| Rankings.ListedSongs | MusicApp-API/MusicApp.WebApi/Repositories/SongRepository.cs:161 | When the rows list the like table, the song ids in them are exactly the liked songs |
| Rankings.MostLikedOnValidState | MusicApp-API/MusicApp.WebApi/Repositories/SongRepository.cs:161-176 | In a referentially consistent database the query fails exactly when nobody likes anything. It then fails as `ArgumentOutOfRange`. When it succeeds it returns only liked songs |
| Rankings.History | MusicApp-API/MusicApp.WebApi/Repositories/SongRepository.cs:65-83 | Fails as `UserNotFound` exactly when the e-mail is unknown. Otherwise it returns each song the user has a play log for, exactly once. The songs are ordered by their logs under the comparator, with equal logs in any order. The length is the number of the user's play logs |
| Rankings.LogOrderIsPreorder | MusicApp-API/MusicApp.WebApi/Repositories/SongRepository.cs:70-71 | A total preorder on play logs orders the user's songs by their logs as a total preorder too |
| Rankings.NewestFirstIsPreorder | MusicApp-API/MusicApp.WebApi/Repositories/SongRepository.cs:71 | Ordering play logs by most recent time first is a total preorder on any state's logs, so it is a valid comparator for the history |
| Rankings.HistoryOfReplays | MusicApp-API/MusicApp.WebApi/Repositories/SongRepository.cs:69-72 | Plays of song 10 at t=1, song 20 at t=2 and song 10 at t=3 give the newest-first history [10, 20]. The replayed song appears once, ahead of the song played in between |
| Findings.TopPlayedListsLeastPlayedFirst | MusicApp-API/MusicApp.WebApi/Repositories/SongRepository.cs:149 | With an unplayed song 1 and a song 2 played five times, every answer as written is [1, 2]: the least played song comes first |
| Findings.TopPlayedOmitsMostPlayed | MusicApp-API/MusicApp.WebApi/Repositories/SongRepository.cs:149 | With more than ten songs, a song played strictly more often than all others is never in the answer as written |
| Findings.TopPlayedCorrected | MusicApp-API/MusicApp.WebApi/Repositories/SongRepository.cs:149 | A descending ranking of min(10, size) songs. Its first song is played at least as often as every song. With more than ten songs, a strictly most-played song is always included |
| Findings.MostLikedIgnoresCounts | MusicApp-API/MusicApp.WebApi/Repositories/SongRepository.cs:162-176 | In a consistent state with rows [(7,1), (7,2), (8,2)], song 2 has more likes than song 1, yet the query as written returns [1, 2] |
| Findings.ListedCounts | MusicApp-API/MusicApp.WebApi/Repositories/SongRepository.cs:162-163 | When the rows list the like table, a song's row count is its number of likes |
| Findings.LikeCounts | MusicApp-API/MusicApp.WebApi/Repositories/SongRepository.cs:162-164 | Maps exactly the liked songs, each to a count of at least 1. Each count is the one the grouping computes |
| Findings.MostLikedCorrected | MusicApp-API/MusicApp.WebApi/Repositories/SongRepository.cs:161-176 | An empty like table gives `Ok([])`. Otherwise, when every liked song exists, the call succeeds with a ranking of liked songs by like count, descending. Every song returned has at least one like. The only failure is a missing song |
| Findings.MostLikedCorrectedRanksByLikes | MusicApp-API/MusicApp.WebApi/Repositories/SongRepository.cs:161-166 | In a consistent database the corrected query never fails. It ranks each song by the number of users who like it |

## Left out

- Entity Framework I/O, `async`/`Task`, `Include`/`ThenInclude` joins and `SaveChangesAsync` durability. Only the stored state before and after each call is modelled. Queries return song ids rather than song entities with their artist and album.
- Engagement.RecordPlay: treats `Watched` as an unbounded natural number. The `Song` entity, which fixes its width, is not part of this model. A 32-bit counter would wrap after 2^31 - 1 plays.
- Concurrency. `song.Watched++` is a read-modify-write, and updates lost between parallel requests cannot be expressed in this sequential model.
- `Get10RandomAsync`: ordering by `Guid.NewGuid()` is random and evaluated by the database, so it has no deterministic contract.
- `SearchSongAsync`: its case-insensitive prefix match is translated to SQL and depends on database collation.
- `GetAllAsync`, `GetSongAsync`, `GetLikedSongAsync`, `GetAlbumSongsAsync`, `GetArtistSongsAsync`, `AddToDataBaseAsync`, `UpdateToDataBaseAsync`, `DeleteAsync`, `DisposeAsync`: lookups and pass-through writes with no engagement logic.
- Engagement.ToggleLike: foreign-key checks are not modelled. The database rejects a like of a missing song id at `SaveChangesAsync`, but here the like is stored. This is why `ToggleLikeKeepsValid` requires the song to exist.
- Rankings.History: the body of `SongLastPlayedCompare` is not part of this model. It is the parameter `leq`, assumed to be a total preorder on the stored play logs.
- E-mail matching: each `u.Email == userEmail` lookup runs in the database, whose collation decides what matches (SQL Server's default ignores case and trailing spaces). Here an `Email` key stands for an e-mail as the database compares it, and lookups use exact string equality on those keys. A differently cased spelling of a stored e-mail is therefore a different key in the model, in `RecordPlay`, `CheckLiked`, `ToggleLike`, `RemoveLike` and `History` alike.
- Duplicate e-mails: users are a map from e-mail to id, so the exception `SingleOrDefaultAsync` throws on two matching users cannot arise.
- Exception messages and `Debug.WriteLine` logging. A failure is one of `UserNotFound`, `SongNotFound` and `ArgumentOutOfRange`, not the message text.

## Findings

| source | as written | input that shows it | evidently intended | confidence | as-written member | corrected member |
|---|---|---|---|---|---|---|
| MusicApp-API/MusicApp.WebApi/Repositories/SongRepository.cs:149 | `OrderBy(s => s.Watched).Take(10)` sorts ascending, so "top played" lists the least played songs | songs 1 (0 plays) and 2 (5 plays) give [1, 2]. With 11 songs, the strictly most played song is never returned | order by `Watched` descending | high, not executed | Findings.TopPlayedOmitsMostPlayed | Findings.TopPlayedCorrected |
| MusicApp-API/MusicApp.WebApi/Repositories/SongRepository.cs:166 | `songsCounts.OrderBy(sc => sc.Count);` discards its result, so the groups stay in first-occurrence order | like rows (7,1), (7,2), (8,2) give [1, 2], although song 2 has two likes and song 1 one | take the groups ordered by count descending. `Findings.MostLikedCorrected` changes two things: it uses the sorted result, and it sorts descending. Line 166 sorts ascending, so keeping its result alone would list the least liked songs first; the descending direction is inferred from the method name at line 157 | high, not executed | Findings.MostLikedIgnoresCounts | Findings.MostLikedCorrected |
| MusicApp-API/MusicApp.WebApi/Repositories/SongRepository.cs:168-175 | the loop reads `songsCounts[0]` before checking the number of groups | an empty like table throws and the query returns `null` | an empty like table gives an empty list | medium, not executed | Rankings.MostLikedOnValidState | Findings.MostLikedCorrected |
