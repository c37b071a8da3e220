# aoe4matchup, modelled in Dafny

The program watches the Age of Empires IV match-history service for a
player's game in progress. When it finds one, it fetches that player's
head-to-head history against every opponent in the game. This project models
its core, which is the single script `index.js`:

- the value types `Game`, `Player` and `User`, and the derivation of a game's
  status and winning team from the players' `result` fields (`Game.FromJson`,
  `Player.FromJson`);
- player lookup and the win test (`getPlayerById`, `didPlayerWin`);
- the request URLs of `getGames` and `getUsersByUsername` (the latter as written, and with the name escaped);
- the keying of `getMatchUpsFromGame`;
- the exact-then-fuzzy username search (`attemptToFindUserByUsername`);
- the `MatchUpChecker` polling state machine.

The service is a parameter. It is a pure function from request URL to the
already-typed records it returns (`Api.GamesApi`, `Api.UsersApi`). Each
run of `_findRecentGame` is one `Checker.Attempt` step: the first comes after
`start` and the user fetch, and later ones come when the retry timer fires. A
step receives the service as it answers then. It also receives the time at
which a failed attempt reads the clock to test the deadline (index.js:405).
That is after the fetch has returned, not when the timer fires.
Timestamps are integers in milliseconds.

Modules, one per component:

- `Wrappers`: `Option` and `Result`.
- `Text`: decimal rendering, percent-encoding and the string scanning the URL
  decoders use.
- `Domain`: the types, `getPlayerById` and `didPlayerWin`.
- `Decoding`: the decoding of game records.
- `Urls`: the URL builders, and decoders that read a URL back as the request
  it denotes.
- `Api`: the service calls.
- `Checker`: the state machine.

Three behaviours of the code are easy to misread:

- A "noresult" listed before a "win" makes the game FINISHED with `teamIdWon`
  equal to the no-result sentinel (-2), not the first team. See
  `Decoding.NoResultBeforeWin`.
- If every attempt fails and the attempts come exactly 3 s apart, the search
  makes five attempts, not four. The attempts at 0, 3, 6 and 9 s are all
  within the 10 s deadline (the check is `now > timeAtFail`), so each is
  retried. See `Checker.ExhaustionAfterFiveAttempts`.
- `didPlayerWin` looks a player up by id only when the player's `teamId` is
  negative. A non-negative team id is compared with `teamIdWon` as it is,
  even when it comes from another game.

## Model

| member | source | states |
|---|---|---|
| Domain.PlayerIndex | index.js:86-93 | the index found holds a player with the id, and no earlier player has that id; no index is found iff no player has the id |
| Domain.GetPlayerById | index.js:86-93 | returns the lowest-index player whose id matches; returns null iff no player has that id |
| Domain.DidPlayerWin | index.js:70-80 | a non-negative `teamId` is compared with `teamIdWon` without a lookup; a negative one is replaced by the team of the first player with the same id; the error is raised iff the team id is negative and the id is not in the game |
| Domain.DidPlayerWinOnOwnPlayer | index.js:70-80 | for a player taken from a game with unique ids, the win test never fails and compares that player's own team with `teamIdWon` |
| Decoding.FromJson | index.js:101-126 | the nested loops with the `foundWhoWon` flag produce exactly the game given by the team-major scan definitions (`Seats`, `Verdict`) |
| Decoding.DecodeGame | index.js:101-126 | status is PLAYING iff `teamIdWon` is the still-playing sentinel -1; there is one decoded player per player entry |
| Decoding.SeatAt | index.js:106-110 | entry `j` of team `i` is scanned at position `Offset(i) + j` and tagged with team `i` |
| Decoding.SeatOrigin | index.js:106-110 | every scan position comes from some entry `j` of some team `i` |
| Decoding.VerdictStillPlaying | index.js:104-124 | the scan keeps the still-playing sentinel iff no entry has a decisive result |
| Decoding.VerdictOfFirstDecisive | index.js:112-121 | the scan's verdict is that of the first decisive entry, and it is never the still-playing sentinel |
| Decoding.DecodedPlayerAt | index.js:106-110 | `players.length` is the sum of the team sizes; entry `j` of team `i` becomes the player at position `Offset(i) + j`, decoded with `teamId == i` |
| Decoding.DecodedTeamIds | index.js:109 | every decoded player's `teamId` is the index of a team of the record |
| Decoding.DecodedStillPlaying | index.js:102-124 | a decoded game is PLAYING iff no player has the result "win" or "noresult" |
| Decoding.DecodedWinnerIsFirstDecisive | index.js:112-121 | the first player in team-major order with "win" or "noresult" decides: FINISHED, and `teamIdWon` is that player's team for "win" or -2 for "noresult"; later results are ignored |
| Decoding.NoResultBeforeWin | index.js:112-121 | a "noresult" on team 0 before a "win" on team 1 gives FINISHED with `teamIdWon == -2` |
| Urls.GamesUrl | index.js:196-212 | the URL starts with `.../players/{playerId}/games`; with non-positive filters, such as the defaults (-1, -1), nothing follows |
| Urls.GamesQueryRoundTrip | index.js:198-211 | the query, read back, yields exactly the positive filters: `limit` iff `limit > 0`, `opponent_profile_id` iff `opponentId > 0`, with `limit` first |
| Urls.GamesUrlRoundTrip | index.js:196-212 | a games URL, read back, yields the player id and exactly the filters that were positive |
| Urls.SearchParamsRoundTrip | index.js:262-267 | the appended parameters, read back, give `exact=true` iff `exact`, and `limit` iff it is positive |
| Urls.SearchUrlAsWritten | index.js:261-267 | the URL the script builds starts with the search endpoint followed by the username exactly as given, unescaped |
| Urls.SearchUrlAsWrittenRoundTrip | index.js:261-267 | as written, a plain name (no `&`, `%`, `#`, `+`, tab, line feed or carriage return) reads back as itself, with `exact=true` iff `exact` and `limit` iff it is positive, provided it does not end the URL with a space or control character |
| Urls.SearchUrl | index.js:261-267 | the corrected search URL starts with the search endpoint followed by the percent-encoded name (that the whole URL reads back is `Urls.SearchUrlRoundTrip`) |
| Urls.SearchUrlRoundTrip | index.js:261-267 | the corrected search URL, read back, yields the name, the exact flag and the positive limit |
| Urls.SearchUrlInjective | index.js:261-267 | two different searches never share a corrected URL |
| Urls.SearchUrlAsWrittenReadsPlusAsSpace | index.js:261 | as written, a search for `u+v` (`u`, `v` plain, and `u+v` not ending the URL with a space or control character) is read by the service as a search for `u v`, because a form-encoded query reads `+` as a space |
| Urls.SearchUrlAsWrittenConfusesQueries | index.js:261-263 | as written, for every plain name `u` (no `&`, `%`, `#`, `+`, tab, line feed or carriage return), a fuzzy search for `u&exact=true` sends the same URL as an exact search for `u`, and that URL reads back as the exact search for `u` |
| Api.GetGames | index.js:213-222 | the result has one game per record the service returns for the `getGames` URL, decoded in order |
| Api.CollectMatchUps | index.js:235-244 | after the loop, the keys are exactly the ids of players on another team than the primary player's and unequal to `playerId`; each value is `getGames(playerId, key)` with no limit |
| Api.GetMatchUps | index.js:231-252 | fails iff the primary player is absent; otherwise the keys are the opponents of the first player with that id, and each value is that opponent's unlimited head-to-head history |
| Api.MatchUpKeysAreOpponents | index.js:232-243 | the primary player is never a key; with unique ids, a player of the game is a key iff it is on another team than the primary player and is not the primary player |
| Api.MatchUpRequestsFilterByOpponent | index.js:241 | each head-to-head request asks for the primary player's games against that opponent (positive ids) with no limit |
| Api.GetUsersByUsername | index.js:260-275 | one user per record the service returns for the search URL as the script builds it (name unescaped), decoded in order |
| Api.FindUserByUsername | index.js:292-302 | a non-empty exact search returns its first user, and the fuzzy search is never sent; otherwise the first fuzzy result is returned if there is one; null iff both searches are empty |
| Api.FindUserRequestsAskForTheName | index.js:293-297 | for a plain name (no `&`, `%`, `#`, `+`, tab, line feed or carriage return), the searches sent ask for exactly that name with limit 1: first exact, then fuzzy |
| Api.FuzzyFallbackRepeatsExactSearch | index.js:293-298 | for the name `u&exact=true` (`u` plain), the fuzzy fallback is read by the service as an exact search for `u` |
| Checker.New | index.js:339-358 | a new checker is INIT and valid, searches for the given user id, has no game, no match-ups and no attempts; the recency threshold is 3 s before and the deadline 10 s after the construction time |
| Checker.FirstAttempt | index.js:375-401 | for a checker created at `t0` and started, the first attempt succeeds iff the most recent game started no earlier than `t0 - 3000`, is PLAYING and lists the player, recording that game and its match-ups; with no live game, it counts one attempt, records no game and retries iff the deadline `t0 + 10000` has not passed |
| Checker.Start | index.js:364-371 | only a call in INIT moves to RUNNING and launches the search; any later call leaves the checker unchanged |
| Checker.RepeatedStarts | index.js:364-371 | any number of `start` calls has the effect of one |
| Checker.FailedAttempt | index.js:403-414 | the attempt count grows by exactly one; the status becomes FAILED_COULD_NOT_FIND_GAME iff `now > timeAtFail`; otherwise a retry is scheduled; the user id, thresholds, game and match-ups are left unchanged |
| Checker.Attempt | index.js:381-401 | success iff the list is non-empty, its first game started at or after `findGameAfterDate`, is PLAYING and lists the player; success records that game and its match-ups; a non-qualifying list is handled as a failed attempt; a qualifying game without the player records the game and stops, with attempts and match-ups unchanged; nothing happens without a pending attempt |
| Checker.RunPreservesValid | index.js:339-414 | the checker invariant holds after any sequence of starts and attempts |
| Checker.TerminalIsFinal | index.js:364-414 | a checker in FINISHED_SUCCESSFULLY or FAILED_COULD_NOT_FIND_GAME is left unchanged by any sequence of events |
| Checker.SearchStopsWithinFiveAttempts | index.js:403-414 | with attempts at least 3 s apart from construction time, at most five attempts are made, and after five none is pending |
| Checker.ExhaustionAfterFiveAttempts | index.js:339-414 | if no attempt sees a live game and attempts come exactly every 3 s, the fifth attempt (at 12 s) fails the search, with five attempts counted |

## Findings

| source | as written | input that shows it | evidently intended | confidence | as-written member | corrected member |
|---|---|---|---|---|---|---|
| index.js:261 | the username is pasted into the search URL unescaped | `attemptToFindUserByUsername("x&exact=true")`: its fuzzy search sends `...search?query=x&exact=true&limit=1`, which is the exact search for `x` | the name escaped with `encodeURIComponent`, so the service reads back the name that was asked for | medium, not executed | Urls.SearchUrlAsWrittenConfusesQueries | Urls.SearchUrlRoundTrip |

The same cause has a second effect, `Urls.SearchUrlAsWrittenReadsPlusAsSpace`:
a `+` in a name reaches the service as a space. The service is taken to read
the query as form-encoded, as `URLSearchParams` writes it for `getGames`.

The service calls (`Api.GetUsersByUsername`, `Api.FindUserByUsername`) send
the URL as the script builds it; `Api.FuzzyFallbackRepeatsExactSearch` shows
the effect on `attemptToFindUserByUsername`.

## Left out

- Page routing, DOM access and `OnRenderMatchUpUI` (index.js:5-13, 417-490). These are user interface.
- `fetch` and `response.json()`. The service is a function from URL to typed records. The `{player: ...}` wrapper around each team entry and the `games`/`players` arrays of the responses are not modelled.
- Transport and JSON errors. The service function always answers, so the rejection of `Promise.all` in `getMatchUpsFromGame`, and the same failure inside the checker, are not modelled.
- `Promise`, `await` and `setTimeout`. Each run of `_findRecentGame` is an `Attempt` event, carrying the time of its deadline test. `statusPromise` is not a value of the model: its outcome is the checker's terminal status, which later `start` calls cannot change. The `reject` callback is never wired in the script.
- Api.FindUserRequestsAskForTheName: stated only for plain names (no `&`, `%`, `#`, `+`, tab, line feed or carriage return), because the script sends the name unescaped, and `fetch` or the service changes other names (see Findings).
- Urls.SearchUrlAsWrittenRoundTrip: stated only for plain names, and not for a name that ends the URL (fuzzy, no limit) with a space or control character. The URL parser of `fetch` deletes tabs and line breaks and trims trailing spaces and controls. `Urls.DecodeSearchUrl` does not model these deletions, so `Urls.PlainName` and `Urls.SurvivesTrim` exclude the names they would change.
- Urls.SearchUrlAsWrittenConfusesQueries: the URLs are shown equal for every `u` (`Urls.AsWrittenSameUrl`); the read-back as an exact search for `u` is stated only for plain `u`, because `fetch` deletes tabs and line breaks from the name.
- Api.FuzzyFallbackRepeatsExactSearch: stated only for plain `u`, for the same reason.
- Checker.Attempt: when a qualifying game does not list the player, the script's exception escapes unhandled. This is modelled only by its effect: the game is recorded, no retry is set, and the status stays RUNNING.
- The user fetch in `_handle` and `getUsersById` (index.js:281-286, 373-379). They only fetch once and cache the result, so the checker model has no `user` field.
- `Date.parse` and `Date.now`. Times are integers in milliseconds.
- `msTillRetry`. Its 3 s appears only as the spacing assumed by `Checker.SpacedAttempts`: successive deadline tests are at least 3 s apart, because the timer is set after one test and the next test follows the timer and a fetch. How long a fetch takes is outside the script.
- `rating`, `averageRating`, `duration`, `server` and the other pass-through fields. They are opaque values, and no arithmetic is stated about them.
- Non-integer and very large numbers in URLs. `Text.IntToString` writes every integer in plain decimal, while JavaScript uses exponent notation from 1e21 on.
- `Urls.SearchUrl` escapes only ASCII characters. Characters beyond ASCII pass through unchanged, where `encodeURIComponent` would UTF-8-encode them.
- An undefined `limit` in `getUsersByUsername` is modelled as a non-positive limit.
- The keys of `getMatchUpsFromGame`'s result are integers, where the script uses strings. Distinct integers have distinct decimal forms, so the key set is the same.
