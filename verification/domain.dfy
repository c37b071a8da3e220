/** The value types of the match-up finder (games, players, users) and the
    two queries the rest of the script asks of a game: who a player is, and
    whether a player won. */
module Domain {
  import opened Wrappers

  datatype GameStatus = Playing | Finished

  /** `teamIdWon` of a finished game that has no winner. */
  const NoResultsTeamId: int := -2
  /** `teamIdWon` of a game that is still being played. */
  const StillPlayingTeamId: int := -1

  /** A participant of one game. `teamId` is the index of the team the player
      was listed under in that game; a negative value means "unknown here". */
  datatype Player = Player(
    id: int,
    username: string,
    teamId: int,
    rating: int,
    ratingChange: Option<int>,
    civilization: string,
    civilizationRandom: bool)

  datatype Game = Game(
    id: int,
    status: GameStatus,
    duration: int,
    averageRating: int,
    kind: string,
    leaderboard: string,
    patchId: int,
    seasonNumber: int,
    server: string,
    teamIdWon: int,
    mapName: string,
    players: seq<Player>,
    startedAt: int,
    updatedAt: int)

  datatype User = User(id: int, steamId: string, username: string, mediumAvatarImageUrl: string)

  /** The error `didPlayerWin` throws for a player the game does not list. */
  datatype GameError = PlayerNotInGame(playerId: int)

  predicate HasPlayer(players: seq<Player>, id: int) {
    exists k :: 0 <= k < |players| && players[k].id == id
  }

  /** Index of the first player with the given id: the linear search of
      `getPlayerById`. */
  function PlayerIndex(players: seq<Player>, id: int): (r: Option<nat>)
    ensures r.None? <==> !HasPlayer(players, id)
    ensures r.Some? ==> r.value < |players| && players[r.value].id == id
    ensures r.Some? ==> forall k :: 0 <= k < r.value ==> players[k].id != id
  {
    if |players| == 0 then None
    else if players[0].id == id then Some(0)
    else
      match PlayerIndex(players[1..], id)
      case None =>
        assert forall k :: 1 <= k < |players| ==> players[k] == players[1..][k - 1];
        None
      case Some(k) => Some(k + 1)
  }

  /** `getPlayerById`: the first listed player with that id, or `null`. */
  function GetPlayerById(g: Game, id: int): (r: Option<Player>)
    ensures r.None? <==> !HasPlayer(g.players, id)
    ensures r.Some? ==> exists k :: 0 <= k < |g.players| && g.players[k] == r.value && r.value.id == id
                                     && forall j :: 0 <= j < k ==> g.players[j].id != id
  {
    match PlayerIndex(g.players, id)
    case None => None
    case Some(k) => Some(g.players[k])
  }

  /** `didPlayerWin`: a non-negative team id of the argument is trusted as it
      is; a negative one is re-resolved by looking the player up by id, and
      the lookup failing is an error. */
  function DidPlayerWin(g: Game, p: Player): (r: Result<bool, GameError>)
    ensures p.teamId >= 0 ==> r == Success(g.teamIdWon == p.teamId)
    ensures p.teamId < 0 ==> (r.Failure? <==> !HasPlayer(g.players, p.id))
    ensures r.Failure? ==> r.error == PlayerNotInGame(p.id)
    ensures p.teamId < 0 && r.Success? ==>
              exists k :: 0 <= k < |g.players| && g.players[k].id == p.id
                          && (forall j :: 0 <= j < k ==> g.players[j].id != p.id)
                          && r.value == (g.teamIdWon == g.players[k].teamId)
  {
    if p.teamId >= 0 then Success(g.teamIdWon == p.teamId)
    else
      match GetPlayerById(g, p.id)
      case None => Failure(PlayerNotInGame(p.id))
      case Some(found) => Success(g.teamIdWon == found.teamId)
  }

  predicate UniqueIds(players: seq<Player>) {
    forall i, j :: 0 <= i < j < |players| ==> players[i].id != players[j].id
  }

  /** For a player taken from the game itself, in a game whose ids are
      unique, the win test never fails and
      agrees with comparing that player's own team. */
  lemma DidPlayerWinOnOwnPlayer(g: Game, k: nat)
    requires k < |g.players|
    requires UniqueIds(g.players)
    ensures DidPlayerWin(g, g.players[k]) == Success(g.teamIdWon == g.players[k].teamId)
  {
  }
}
