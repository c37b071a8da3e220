/** The calls the script makes to the match-history service
    (`Aoe4WorldApiService`), with the service itself as a parameter: a
    function from request URL to the already-typed records it returns. */
module Api {
  import opened Wrappers
  import opened Domain
  import opened Decoding
  import opened Urls

  /** The games endpoint at one moment: the game records each URL returns. */
  type GamesApi = string -> seq<GameRecord>
  /** The search endpoint at one moment: the user records each URL returns. */
  type UsersApi = string -> seq<UserRecord>

  /** The failure of `getMatchUpsFromGame` when the primary player is not in
      the game (the script dereferences `null` there). */
  datatype ApiError = PrimaryPlayerMissing(playerId: int)

  /** `getGames`: the games the service returns for that URL, decoded in order. */
  function GetGames(api: GamesApi, playerId: int, opponentId: int, limit: int): (gs: seq<Game>)
    ensures |gs| == |api(GamesUrl(playerId, opponentId, limit))|
    ensures forall i :: 0 <= i < |gs| ==> gs[i] == DecodeGame(api(GamesUrl(playerId, opponentId, limit))[i])
  {
    var records := api(GamesUrl(playerId, opponentId, limit));
    seq(|records|, i requires 0 <= i < |records| => DecodeGame(records[i]))
  }

  /** A player of the game the primary player plays against: on another
      team, and not the primary player. */
  predicate IsOpponent(p: Player, team: int, playerId: int) {
    p.teamId != team && p.id != playerId
  }

  function OpponentIds(players: seq<Player>, team: int, playerId: int): set<int> {
    set p | p in players && IsOpponent(p, team, playerId) :: p.id
  }

  /** The loop of `getMatchUpsFromGame` after it has looked at `players`:
      one entry per opponent id, holding that head-to-head history. */
  function CollectMatchUps(api: GamesApi, playerId: int, team: int, players: seq<Player>): (m: map<int, seq<Game>>)
    ensures m.Keys == OpponentIds(players, team, playerId)
    ensures forall id :: id in m ==> m[id] == GetGames(api, playerId, id, Unset)
  {
    if |players| == 0 then map[]
    else
      var pre := players[..|players| - 1];
      var last := players[|players| - 1];
      var m := CollectMatchUps(api, playerId, team, pre);
      assert players == pre + [last];
      if !IsOpponent(last, team, playerId) then m
      else m[last.id := GetGames(api, playerId, last.id, Unset)]
  }

  /** `getMatchUpsFromGame`: the primary player's team is that of the first
      player with its id; every opponent id maps to the full history of games
      between the primary player and that opponent. */
  function GetMatchUps(api: GamesApi, playerId: int, g: Game): (r: Result<map<int, seq<Game>>, ApiError>)
    ensures r.Failure? <==> !HasPlayer(g.players, playerId)
    ensures r.Failure? ==> r.error == PrimaryPlayerMissing(playerId)
    ensures r.Success? ==> r.value.Keys == OpponentIds(g.players, GetPlayerById(g, playerId).value.teamId, playerId)
    ensures r.Success? ==> forall id :: id in r.value ==> r.value[id] == GetGames(api, playerId, id, Unset)
  {
    match GetPlayerById(g, playerId)
    case None => Failure(PrimaryPlayerMissing(playerId))
    case Some(primary) => Success(CollectMatchUps(api, playerId, primary.teamId, g.players))
  }

  /** The primary player is never a key; in a game whose player ids are
      unique, no teammate is a key either, and every opponent is. */
  lemma MatchUpKeysAreOpponents(api: GamesApi, playerId: int, g: Game, k: nat)
    requires HasPlayer(g.players, playerId) && UniqueIds(g.players)
    requires k < |g.players|
    ensures playerId !in GetMatchUps(api, playerId, g).value
    ensures var team := GetPlayerById(g, playerId).value.teamId;
            g.players[k].id in GetMatchUps(api, playerId, g).value <==>
              (g.players[k].teamId != team && g.players[k].id != playerId)
  {
  }

  /** Each head-to-head request asks for the primary player's games against
      that one opponent, with no cap on their number (for positive ids; a
      non-positive id sends no filter at all). */
  lemma MatchUpRequestsFilterByOpponent(playerId: int, opponentId: int)
    ensures opponentId > 0 ==>
              DecodeGamesUrl(GamesUrl(playerId, opponentId, Unset)) == Some(GamesRequest(playerId, Some(opponentId), None))
    ensures opponentId <= 0 ==>
              DecodeGamesUrl(GamesUrl(playerId, opponentId, Unset)) == Some(GamesRequest(playerId, None, None))
  {
    GamesUrlRoundTrip(playerId, opponentId, Unset);
  }

  /** `getUsersByUsername`: the users the service returns for the search URL
      the script builds, with the username not escaped. */
  function GetUsersByUsername(api: UsersApi, username: string, exact: bool, limit: int): (us: seq<User>)
    ensures |us| == |api(SearchUrlAsWritten(username, exact, limit))|
    ensures forall i :: 0 <= i < |us| ==> us[i] == DecodeUser(api(SearchUrlAsWritten(username, exact, limit))[i])
  {
    var records := api(SearchUrlAsWritten(username, exact, limit));
    seq(|records|, i requires 0 <= i < |records| => DecodeUser(records[i]))
  }

  /** The user found, and the search URLs sent to find it, in order. */
  datatype UserLookup = UserLookup(user: Option<User>, requests: seq<string>)

  /** `attemptToFindUserByUsername`: an exact search for one user, then, only
      if that finds nobody, a fuzzy search for one user. */
  function FindUserByUsername(api: UsersApi, username: string): (r: UserLookup)
    ensures var exactUrl := SearchUrlAsWritten(username, true, 1);
            var fuzzyUrl := SearchUrlAsWritten(username, false, 1);
            && (|api(exactUrl)| > 0 ==> r.requests == [exactUrl] && r.user == Some(DecodeUser(api(exactUrl)[0])))
            && (|api(exactUrl)| == 0 ==> r.requests == [exactUrl, fuzzyUrl])
            && (|api(exactUrl)| == 0 && |api(fuzzyUrl)| > 0 ==> r.user == Some(DecodeUser(api(fuzzyUrl)[0])))
            && (r.user.None? <==> |api(exactUrl)| == 0 && |api(fuzzyUrl)| == 0)
  {
    var exactUrl := SearchUrlAsWritten(username, true, 1);
    var fuzzyUrl := SearchUrlAsWritten(username, false, 1);
    var users := GetUsersByUsername(api, username, true, 1);
    if |users| != 0 then UserLookup(Some(users[0]), [exactUrl])
    else
      var fuzzy := GetUsersByUsername(api, username, false, 1);
      if |fuzzy| != 0 then UserLookup(Some(fuzzy[0]), [exactUrl, fuzzyUrl])
      else UserLookup(None, [exactUrl, fuzzyUrl])
  }

  /** For a plain name (`PlainName`), every search
      `attemptToFindUserByUsername` sends asks for exactly that name and at
      most one user; the first is exact, the second fuzzy. Other names can
      reach the service as another query (`SearchUrlAsWrittenConfusesQueries`,
      `SearchUrlAsWrittenReadsPlusAsSpace`). */
  lemma FindUserRequestsAskForTheName(api: UsersApi, username: string)
    requires PlainName(username)
    ensures var rs := FindUserByUsername(api, username).requests;
            && 1 <= |rs| <= 2
            && DecodeSearchUrl(rs[0]) == Some(SearchRequest(username, true, Some(1)))
            && (|rs| == 2 ==> DecodeSearchUrl(rs[1]) == Some(SearchRequest(username, false, Some(1))))
  {
    SearchUrlAsWrittenRoundTrip(username, true, 1);
    SearchUrlAsWrittenRoundTrip(username, false, 1);
  }

  /** As written, when the exact search for `u&exact=true` finds nobody, the
      fuzzy fallback is read by the service as an exact search for `u`. */
  lemma FuzzyFallbackRepeatsExactSearch(api: UsersApi, u: string)
    requires PlainName(u)
    ensures var rs := FindUserByUsername(api, u + ("&" + ExactParam)).requests;
            |rs| == 2 ==> DecodeSearchUrl(rs[1]) == Some(SearchRequest(u, true, Some(1)))
  {
    SearchUrlAsWrittenConfusesQueries(u, 1);
  }
}
