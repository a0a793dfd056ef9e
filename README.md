# Photo tournament engine — a Dafny model

The backend of the photo tournament keeps one table of photos. Each row has
an `id`, a stored `filename`, the user's `original_name`, a `round` (default
1), a `wins` count (default 0) and a `status` (`'active'` or `'eliminated'`).
Five HTTP handlers act on this table:

- upload inserts one row per file;
- the duel endpoint runs `findMatch` until it stops reporting a promotion;
- vote credits the winner and eliminates the loser in one transaction;
- leaderboard returns the five rows with the most wins;
- restart deletes every row.

`findMatch` does the bracket work. With at most one active photo, it reports
that photo, or nothing, as the winner. Otherwise it looks at the active
photos grouped by round, lowest round first. A round with two or more photos
yields a random pair. A round with a single photo has that photo promoted one
round, and the caller runs `findMatch` again. This is how any number of
uploads turns into a single-elimination bracket.

The model keeps the table as a `seq<Photo>` in id order, plus the next
AUTOINCREMENT id, inside the class `Server.PhotoTable`. The upload, duel,
vote and restart handlers are methods of that class. The leaderboard handler
only reads the table, so it is the function `Ranking.Leaderboard` over the
rows. The SQL queries and updates are functions on the sequence:

- `PhotoStore` (`photo_store.dfy`): the row type and the table invariant
  `WellFormed`. Ids are positive, ascending and below the next id, and
  `0 <= wins < round`, because every win also moves a photo up a round. This
  module also holds the read-only queries: the active count, the first active
  row and the lowest active round.
- `Bracket` (`bracket.dfy`): the `GROUP BY round ORDER BY round` summary, the
  promotion update, and the measure that proves the retry loop ends. The
  measure is the slack: the sum of `top - round` over active photos, for a
  fixed bound `top`.
- `Ballot` (`ballot.dfy`): the two updates of the vote transaction and their
  effect on the active count.
- `Ranking` (`ranking.dfy`): `ORDER BY wins DESC LIMIT 5`.
- `Matching` (`matching.dfy`): what one run of `findMatch` and the whole
  retry loop of the duel endpoint do, as relations between the table before
  and after, with the lemmas the handlers rely on.
- `Server` (`server.dfy`): the class with the handlers. `FindMatch` keeps the
  source's `for` loop over the round summary; the scan stops at the first
  listed round and acts on it after the loop, which does the same as acting
  inside the loop and returning. `GetDuel` keeps the
  `while (result === 'promoted')` loop, and its termination is proved.
- `Tournament` (`tournament.dfy`): a client that alternates duel and vote,
  as the web page does, until a winner comes back. It proves that this
  conversation ends with at most one active photo, reported as the winner.
  A table that held an active photo at the start ends with exactly one, the
  champion; an empty table ends empty, with no winner.

Three facts the proofs establish about the source:

- The `for` loop over rounds always decides at its first group. Only rounds
  that hold an active photo are listed, and the first listed round is the
  lowest active round.
- `return null`, and so the 404 "No duel found" reply, cannot be reached.
- With two or more active photos, a promotion always lifts the lone photo of
  the lowest round to a round some other active photo already reaches. So
  the retry loop ends even though the source puts no cap on it.

What the backend code does not do:

- The vote handler rejects only missing or falsy ids. It does not reject two
  equal ids, unknown ids, or ids of eliminated photos; such votes update
  whatever rows match.
- The leaderboard does not merge rows that share an original name.
- The retry loop has no cap.
- There is no undo endpoint and no vote history.
- The duel reply carries no `matchesRemaining`.

## Model

| member | source | states |
|---|---|---|
| PhotoStore.ActiveCount | backend/index.js:63 | the active count is zero exactly when no row is active, and never exceeds the number of rows |
| PhotoStore.FirstActive | backend/index.js:66-67 | the reported winner is absent exactly when no photo is active; otherwise it is an active row of the table |
| PhotoStore.SoleActiveIsFirst | backend/index.js:65-67 | with exactly one active photo, the winner reported is that photo, and no other row is active |
| PhotoStore.CountInRound | backend/index.js:70 | a round's count is zero exactly when no active photo waits in it, and never exceeds the active count |
| PhotoStore.MinActiveRound | backend/index.js:70 | the lowest active round is held by some active photo and is at most the round of every active photo |
| PhotoStore.NewRows | backend/index.js:19-26 | the rows of one upload, one per file, with column defaults and consecutive ids from the first free id; `UploadKeepsWellFormed` and `Server.InsertMany` state what they mean for the table |
| PhotoStore.UploadKeepsWellFormed | backend/index.js:19-26 | appending an upload batch with fresh consecutive ids keeps the table invariant and adds one active photo per file |
| Bracket.RoundGroups | backend/index.js:70 | the per-round summary has no more rows than there are active photos; `RoundGroupsTabulate` states its full meaning |
| Bracket.RoundGroupsTabulate | backend/index.js:70 | the per-round summary lists rounds in strictly ascending order, each with at least one photo, and gives for every round exactly the number of active photos in it |
| Bracket.FirstGroupIsLowest | backend/index.js:70-72 | with an active photo, the first summary row is the lowest active round with its true population |
| Bracket.PromoteRound | backend/index.js:77 | promotion keeps the number of rows; `PromoteLoneRow`, `PromoteKeepsActiveCount` and `Matching.PromoteRaisesRounds` state what it changes |
| Bracket.PromoteLoneRow | backend/index.js:76-78 | promoting a round that holds one active photo changes exactly one row, that photo, and only its round, up by one |
| Bracket.PromoteKeepsActiveCount | backend/index.js:77 | promotion changes no status, so the active count stays |
| Bracket.RoundCeiling | backend/index.js:84-85 | the bound used by the retry loop's measure: the highest round of any row, reached by some row when the table is not empty |
| Bracket.PromoteSlack | backend/index.js:77 | promoting a round below `top` keeps every active round at most `top` and lowers the slack by the number of photos promoted |
| Bracket.LonePromotionProgress | backend/index.js:76-85 | with two or more active photos and a lone photo in the lowest round, its promotion stays within `top` and lowers the slack by exactly one |
| Ballot.CreditWin | backend/index.js:101 | the winner's update keeps the number of rows; `VoteRowEffect` states its effect row by row |
| Ballot.Eliminate | backend/index.js:102 | the loser's update keeps the number of rows; `VoteRowEffect` and `EliminateActiveCount` state its effect |
| Ballot.ApplyVote | backend/index.js:100-103 | the whole vote transaction keeps the number of rows; `VoteRowEffect` states its effect row by row |
| Ballot.VoteRowEffect | backend/index.js:100-103 | row by row, a vote raises the winner's round and wins by one and eliminates the loser; ids and names never change; a row named by neither id is unchanged |
| Ballot.EliminateActiveCount | backend/index.js:102 | eliminating by id lowers the active count by one exactly when an active row has that id, and leaves it otherwise |
| Ballot.VoteActiveCount | backend/index.js:100-103 | a whole vote lowers the active count by one exactly when the loser id names an active photo; the winner's update changes no status |
| Ballot.VoteKeepsWellFormed | backend/index.js:100-103 | a vote, with any ids, keeps the table invariant (ids unchanged, `0 <= wins < round`) |
| Ranking.InsertByWinsPermutes | backend/index.js:115 | placing one row into an ordered list adds exactly that row |
| Ranking.SortByWins | backend/index.js:115 | the ordered rows are a permutation of the table with wins non-increasing |
| Ranking.Leaderboard | backend/index.js:115 | the leaderboard has min(5, rows) rows, ordered by wins non-increasing, all taken from the table |
| Ranking.LeaderboardKeepsBest | backend/index.js:115 | no row left off the leaderboard has more wins than any row on it |
| Server.PhotoTable.constructor | backend/index.js:17-27 | a new database has an empty photos table and hands out id 1 first |
| Server.PhotoTable.UploadPhotos | backend/index.js:42-57 | a missing or empty batch is rejected with nothing changed; otherwise one row per file is appended with round 1, wins 0, status active and fresh increasing ids, and the reply gives the count |
| Server.PhotoTable.FindMatch | backend/index.js:62-82 | with at most one active photo: the winner (or none) and no change; otherwise, in the lowest active round, either two distinct active photos and no change, or the lone photo promoted |
| Server.PhotoTable.GetDuel | backend/index.js:84-87 | the retry loop terminates and never answers 404; at most one active photo gives the winner with no change; two or more give a pair from the lowest active round of the final table; only rounds rise, the active count stays, and the only row that may change is the lone photo of the lowest round at the start, which ends in the lowest active round (no further than the next occupied round) |
| Server.PhotoTable.Vote | backend/index.js:95-110 | a missing or falsy id is rejected with no change; otherwise the table becomes the vote's two updates applied to the old table |
| Server.PhotoTable.Restart | backend/index.js:122-124 | every row is deleted; the next id is not reset |
| Matching.ScanStopsAtLowest | backend/index.js:72-80 | a group reached by the scan after only empty groups is the first group, the lowest active round, with its true count |
| Matching.TwoInRound | backend/index.js:74 | a round holding two or more active photos has two distinct rows to draw |
| Server.PickPair | backend/index.js:74 | the random pair query returns two rows of the table from the given round, with different ids |
| Matching.PromoteStep | backend/index.js:76-78 | promoting the lowest round when it holds one photo is a `findMatch` step and keeps the table invariant |
| Matching.PromoteKeepsWellFormed | backend/index.js:77 | promotion keeps the table invariant |
| Matching.PromoteRaisesRounds | backend/index.js:77 | promotion changes no id, name, wins or status and never lowers a round |
| Matching.PromotedStepProgress | backend/index.js:76-78 | promoting the lone photo of the lowest round, with two or more active, stays within `top`, keeps the active count, only raises rounds and lowers the slack |
| Matching.PromoteLoneStep | backend/index.js:76-78 | promoting the lone photo of the lowest round changes that row alone, by one round, and leaves it in the lowest active round of the new table |
| Matching.LoneMovesCompose | backend/index.js:84-85 | across repeated promotions, the table still differs from the one the loop started with only at the lone lowest photo of the start, which stays in the lowest active round |
| Matching.AtMostOneMoved | backend/index.js:84-85 | the retry loop moves at most one row |
| Matching.MatchStepProgress | backend/index.js:84-85 | each `findMatch` step either answers (never with nothing) or promotes; a promotion keeps the active count, moves only the lone lowest photo, up one round, and lowers the slack |
| Matching.RetryStep | backend/index.js:84-85 | one more pass of the retry loop keeps its invariant (active count kept, only the start's lone lowest photo moved); the slack drops when the pass promotes again |
| Server.InsertMany | backend/index.js:46-51 | inserting a batch row by row appends exactly the batch's rows, in file order, with consecutive ids from the first free id |
| Tournament.PlayOut | backend/index.js:60-110 | repeated duel then vote ends with at most one active photo, reported as the winner; a table that started with an active photo ends with exactly one |
| Tournament.Ballots | frontend/src/components/DuelArena.jsx:87 | the vote the page posts names both photos of the duel, the picked one as winner |
| Tournament.LoserIsActive | backend/index.js:74-75 | both photos of a duel are active rows with nonzero ids, so a vote on them is accepted and eliminates an active photo |

## Left out

- The HTTP layer (Express routing, CORS, JSON bodies, status codes), the SQLite driver and the multer storage are not modelled. Each reply is a datatype (`UploadReply`, `Match`, `VoteReply`), and `Match.NoMatch` stands for the 404 reply.
- Storage failures and the 500 replies of the `catch` blocks are not modelled. Every statement is assumed to succeed, and each transaction applies in full.
- File naming with `Date.now()` and `Math.random()` is I/O. The stored filename is an input field of `UploadedFile`.
- The asynchronous deletion of uploaded files after restart is I/O and not modelled.
- `ORDER BY RANDOM() LIMIT 2` is modelled as an unconstrained choice of two distinct active rows from the round. Its distribution is not modelled.
- Server.PhotoTable.Vote: request ids are `Option<int>`. `None` is a missing or null field and `Some(0)` is the falsy 0. Other JSON values (strings, booleans, fractions, NaN) are not modelled.
- Ranking.Leaderboard: SQL leaves the order of rows with equal wins open. The model keeps table order for ties; its contract (sorted, top five) holds for any tie order.
- Integers are unbounded. SQLite's 64-bit limit on ids, rounds and wins is not reached by any realistic tournament and is not modelled.
- Requests are handled one at a time, as the single-threaded server does. Concurrency is not modelled.
- The frontend (`App.jsx`, `main.jsx`, `UploadScreen.jsx`, `DuelArena.jsx`, `WinnerScreen.jsx`) is UI and not part of this model. `Tournament.PlayOut` stands in for the duel page's duel → vote conversation. The page's own check that at least two files are chosen is not modelled.
- Undo, vote history, name-based deduplication in the leaderboard, `matchesRemaining` and a retry cap are absent from the backend code, so they are not modelled.
