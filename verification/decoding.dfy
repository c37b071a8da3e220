/** Decoding of the game records the match-history service returns
    (`Game.FromJson`, `Player.FromJson`, `User.FromJson`). A record lists its
    players team by team; the decoded game lists them in one sequence, each
    tagged with the index of its team, and derives the status and the
    winning team from the players' `result` fields. */
module Decoding {
  import opened Wrappers
  import opened Domain

  /** The fields of one player entry of a game record that are read. */
  datatype PlayerRecord = PlayerRecord(
    profileId: int,
    name: string,
    rating: int,
    ratingDiff: Option<int>,
    civilization: string,
    civilizationRandomized: bool,
    result: Option<string>)

  /** A game record; `teams[i]` lists the players of team `i`. */
  datatype GameRecord = GameRecord(
    gameId: int,
    duration: int,
    averageRating: int,
    kind: string,
    leaderboard: string,
    patch: int,
    season: int,
    server: string,
    mapName: string,
    teams: seq<seq<PlayerRecord>>,
    startedAt: int,
    updatedAt: int)

  datatype UserRecord = UserRecord(profileId: int, steamId: string, name: string, mediumAvatar: string)

  /** One player entry together with the index of the team it was listed in. */
  datatype Seat = Seat(team: nat, record: PlayerRecord)

  function DecodePlayer(teamId: int, r: PlayerRecord): Player {
    Player(r.profileId, r.name, teamId, r.rating, r.ratingDiff, r.civilization, r.civilizationRandomized)
  }

  function DecodeUser(r: UserRecord): User {
    User(r.profileId, r.steamId, r.name, r.mediumAvatar)
  }

  /** Number of player entries over all teams. */
  function TotalSize(teams: seq<seq<PlayerRecord>>): nat {
    if |teams| == 0 then 0 else TotalSize(teams[..|teams| - 1]) + |teams[|teams| - 1]|
  }

  /** Position, in the flattened order, of the first player of team `i`. */
  function Offset(teams: seq<seq<PlayerRecord>>, i: nat): nat
    requires i <= |teams|
  {
    TotalSize(teams[..i])
  }

  function TeamSeats(i: nat, team: seq<PlayerRecord>): (s: seq<Seat>)
    ensures |s| == |team|
    ensures forall j :: 0 <= j < |team| ==> s[j] == Seat(i, team[j])
  {
    seq(|team|, j requires 0 <= j < |team| => Seat(i, team[j]))
  }

  /** All player entries in scan order: team by team, and within a team in
      listed order. */
  function Seats(teams: seq<seq<PlayerRecord>>): seq<Seat> {
    if |teams| == 0 then []
    else Seats(teams[..|teams| - 1]) + TeamSeats(|teams| - 1, teams[|teams| - 1])
  }

  function PlayersOf(seats: seq<Seat>): (ps: seq<Player>)
    ensures |ps| == |seats|
    ensures forall k :: 0 <= k < |seats| ==> ps[k] == DecodePlayer(seats[k].team, seats[k].record)
  {
    seq(|seats|, k requires 0 <= k < |seats| => DecodePlayer(seats[k].team, seats[k].record))
  }

  /** A result that ends the scan for the winner. */
  predicate Decisive(r: PlayerRecord) {
    r.result == Some("win") || r.result == Some("noresult")
  }

  /** What one entry says about the winner if it is the first decisive one. */
  function SeatVerdict(s: Seat): int {
    if s.record.result == Some("win") then s.team
    else if s.record.result == Some("noresult") then NoResultsTeamId
    else StillPlayingTeamId
  }

  /** The `teamIdWon` the scan arrives at after the given entries: the first
      entry that decides keeps its verdict. */
  function Verdict(seats: seq<Seat>): int {
    if |seats| == 0 then StillPlayingTeamId
    else
      var before := Verdict(seats[..|seats| - 1]);
      if before != StillPlayingTeamId then before else SeatVerdict(seats[|seats| - 1])
  }

  function StatusOf(teamIdWon: int): GameStatus {
    if teamIdWon == StillPlayingTeamId then Playing else Finished
  }

  /** The decoded game, stated by the scan-order reference definitions. */
  function DecodeGame(r: GameRecord): (g: Game)
    ensures g.status == Playing <==> g.teamIdWon == StillPlayingTeamId
    ensures |g.players| == |Seats(r.teams)|
    ensures g.id == r.gameId && g.startedAt == r.startedAt
  {
    var seats := Seats(r.teams);
    var won := Verdict(seats);
    Game(r.gameId, StatusOf(won), r.duration, r.averageRating, r.kind, r.leaderboard, r.patch, r.season,
         r.server, won, r.mapName, PlayersOf(seats), r.startedAt, r.updatedAt)
  }

  lemma SeatsOfNextTeam(teams: seq<seq<PlayerRecord>>, i: nat)
    requires i < |teams|
    ensures Seats(teams[..i + 1]) == Seats(teams[..i]) + TeamSeats(i, teams[i])
    ensures TotalSize(teams[..i + 1]) == TotalSize(teams[..i]) + |teams[i]|
  {
    assert teams[..i + 1][..i] == teams[..i];
  }

  lemma VerdictSnoc(seats: seq<Seat>, s: Seat)
    ensures Verdict(seats + [s]) ==
              if Verdict(seats) != StillPlayingTeamId then Verdict(seats) else SeatVerdict(s)
  {
  }

  lemma PlayersOfSnoc(seats: seq<Seat>, s: Seat)
    ensures PlayersOf(seats + [s]) == PlayersOf(seats) + [DecodePlayer(s.team, s.record)]
  {
  }

  lemma TeamSeatsSnoc(done: seq<Seat>, i: nat, team: seq<PlayerRecord>, j: nat)
    requires j < |team|
    ensures done + TeamSeats(i, team[..j + 1]) == (done + TeamSeats(i, team[..j])) + [Seat(i, team[j])]
  {
  }

  /** `Game.FromJson`, with its two nested loops over teams and entries and
      its `foundWhoWon` flag. */
  method FromJson(r: GameRecord) returns (g: Game)
    ensures g == DecodeGame(r)
  {
    var gameStatus := Playing;
    var players: seq<Player> := [];
    var whoWon := StillPlayingTeamId;
    var foundWhoWon := false;
    var i := 0;
    while i < |r.teams|
      invariant 0 <= i <= |r.teams|
      invariant players == PlayersOf(Seats(r.teams[..i]))
      invariant whoWon == Verdict(Seats(r.teams[..i]))
      invariant foundWhoWon <==> whoWon != StillPlayingTeamId
      invariant gameStatus == StatusOf(whoWon)
    {
      var team := r.teams[i];
      ghost var done := Seats(r.teams[..i]);
      var j := 0;
      assert done + TeamSeats(i, team[..0]) == done;
      while j < |team|
        invariant 0 <= j <= |team|
        invariant players == PlayersOf(done + TeamSeats(i, team[..j]))
        invariant whoWon == Verdict(done + TeamSeats(i, team[..j]))
        invariant foundWhoWon <==> whoWon != StillPlayingTeamId
        invariant gameStatus == StatusOf(whoWon)
      {
        var entry := team[j];
        ghost var prefix := done + TeamSeats(i, team[..j]);
        TeamSeatsSnoc(done, i, team, j);
        VerdictSnoc(prefix, Seat(i, entry));
        PlayersOfSnoc(prefix, Seat(i, entry));
        players := players + [DecodePlayer(i, entry)];
        if !foundWhoWon {
          if entry.result == Some("win") {
            foundWhoWon := true;
            gameStatus := Finished;
            whoWon := i;
          } else if entry.result == Some("noresult") {
            foundWhoWon := true;
            whoWon := NoResultsTeamId;
            gameStatus := Finished;
          }
        }
        j := j + 1;
      }
      assert team[..|team|] == team;
      SeatsOfNextTeam(r.teams, i);
      i := i + 1;
    }
    assert r.teams[..|r.teams|] == r.teams;
    g := Game(r.gameId, gameStatus, r.duration, r.averageRating, r.kind, r.leaderboard, r.patch, r.season,
              r.server, whoWon, r.mapName, players, r.startedAt, r.updatedAt);
  }

  lemma {:induction false} SeatsLength(teams: seq<seq<PlayerRecord>>)
    ensures |Seats(teams)| == TotalSize(teams)
  {
    if |teams| > 0 {
      SeatsLength(teams[..|teams| - 1]);
    }
  }

  /** Team-major order: entry `j` of team `i` sits at position
      `Offset(teams, i) + j` of the scan, tagged with team `i`. */
  lemma {:induction false} SeatAt(teams: seq<seq<PlayerRecord>>, i: nat, j: nat)
    requires i < |teams| && j < |teams[i]|
    ensures Offset(teams, i) + j < |Seats(teams)|
    ensures Seats(teams)[Offset(teams, i) + j] == Seat(i, teams[i][j])
  {
    var n := |teams| - 1;
    var pre := teams[..n];
    assert Seats(teams) == Seats(pre) + TeamSeats(n, teams[n]);
    if i < n {
      SeatAt(pre, i, j);
      assert pre[..i] == teams[..i];
      assert pre[i][j] == teams[i][j];
    } else {
      SeatsLength(pre);
      assert teams[..n] == pre;
    }
  }

  /** Every scan position comes from a team entry. */
  lemma {:induction false} SeatOrigin(teams: seq<seq<PlayerRecord>>, k: nat) returns (i: nat, j: nat)
    requires k < TotalSize(teams)
    ensures i < |teams| && j < |teams[i]| && k == Offset(teams, i) + j
  {
    var n := |teams| - 1;
    var pre := teams[..n];
    if k < TotalSize(pre) {
      i, j := SeatOrigin(pre, k);
      assert pre[..i] == teams[..i];
    } else {
      assert teams[..n] == pre;
      i, j := n, k - TotalSize(pre);
    }
  }

  lemma {:induction false} OffsetMonotone(teams: seq<seq<PlayerRecord>>, i: nat, i': nat)
    requires i < i' <= |teams|
    ensures Offset(teams, i) + |teams[i]| <= Offset(teams, i')
    decreases i' - i
  {
    SeatsOfNextTeam(teams, i);
    if i + 1 < i' {
      OffsetMonotone(teams, i + 1, i');
    }
  }

  /** The scan says "still playing" exactly when no entry is decisive. */
  lemma {:induction false} VerdictStillPlaying(seats: seq<Seat>)
    ensures Verdict(seats) == StillPlayingTeamId <==> forall k :: 0 <= k < |seats| ==> !Decisive(seats[k].record)
  {
    if |seats| > 0 {
      var n := |seats| - 1;
      var pre := seats[..n];
      VerdictStillPlaying(pre);
      assert forall k :: 0 <= k < n ==> pre[k] == seats[k];
      if Verdict(pre) != StillPlayingTeamId {
        var k :| 0 <= k < n && Decisive(pre[k].record);
        assert Decisive(seats[k].record);
      }
    }
  }

  /** The scan's verdict is that of the first decisive entry. */
  lemma {:induction false} VerdictOfFirstDecisive(seats: seq<Seat>, k: nat)
    requires k < |seats| && Decisive(seats[k].record)
    requires forall j :: 0 <= j < k ==> !Decisive(seats[j].record)
    ensures Verdict(seats) == SeatVerdict(seats[k]) != StillPlayingTeamId
  {
    var n := |seats| - 1;
    var pre := seats[..n];
    if k < n {
      VerdictOfFirstDecisive(pre, k);
    } else {
      VerdictStillPlaying(pre);
    }
  }

  /** Entry `(i, j)` has the first decisive result in team-major order. */
  predicate FirstDecisive(teams: seq<seq<PlayerRecord>>, i: int, j: int) {
    && 0 <= i < |teams| && 0 <= j < |teams[i]| && Decisive(teams[i][j])
    && forall i', j' :: 0 <= i' < |teams| && 0 <= j' < |teams[i']| && (i' < i || (i' == i && j' < j)) ==>
         !Decisive(teams[i'][j'])
  }

  /** A decoded game is still playing exactly when no player of the record
      has a "win" or "noresult" result. */
  lemma DecodedStillPlaying(r: GameRecord)
    ensures DecodeGame(r).status == Playing <==>
              forall i, j :: 0 <= i < |r.teams| && 0 <= j < |r.teams[i]| ==> !Decisive(r.teams[i][j])
  {
    var teams := r.teams;
    var seats := Seats(teams);
    SeatsLength(teams);
    VerdictStillPlaying(seats);
    if forall i, j :: 0 <= i < |teams| && 0 <= j < |teams[i]| ==> !Decisive(teams[i][j]) {
      forall k | 0 <= k < |seats| ensures !Decisive(seats[k].record) {
        var i, j := SeatOrigin(teams, k);
        SeatAt(teams, i, j);
      }
    } else {
      var i, j :| 0 <= i < |teams| && 0 <= j < |teams[i]| && Decisive(teams[i][j]);
      SeatAt(teams, i, j);
      assert Decisive(seats[Offset(teams, i) + j].record);
    }
  }

  /** The first player, in team-major order, with a "win" or "noresult"
      result decides the game: a "win" names that player's team, a
      "noresult" gives the no-result sentinel; later results are ignored. */
  lemma DecodedWinnerIsFirstDecisive(r: GameRecord, i: nat, j: nat)
    requires FirstDecisive(r.teams, i, j)
    ensures DecodeGame(r).status == Finished
    ensures DecodeGame(r).teamIdWon == if r.teams[i][j].result == Some("win") then i else NoResultsTeamId
  {
    var teams := r.teams;
    var seats := Seats(teams);
    var k := Offset(teams, i) + j;
    SeatAt(teams, i, j);
    SeatsLength(teams);
    forall k' | 0 <= k' < k ensures !Decisive(seats[k'].record) {
      var i', j' := SeatOrigin(teams, k');
      SeatAt(teams, i', j');
      if i < i' {
        OffsetMonotone(teams, i, i');
      } else if i' < i {
        OffsetMonotone(teams, i', i);
      }
    }
    VerdictOfFirstDecisive(seats, k);
  }

  /** `players.length` is the sum of the team sizes, and entry `j` of team
      `i` becomes the player at position `Offset(teams, i) + j`, with
      `teamId == i`. */
  lemma DecodedPlayerAt(r: GameRecord, i: nat, j: nat)
    requires i < |r.teams| && j < |r.teams[i]|
    ensures |DecodeGame(r).players| == TotalSize(r.teams)
    ensures Offset(r.teams, i) + j < |DecodeGame(r).players|
    ensures DecodeGame(r).players[Offset(r.teams, i) + j] == DecodePlayer(i, r.teams[i][j])
  {
    SeatsLength(r.teams);
    SeatAt(r.teams, i, j);
  }

  /** Every decoded player carries the index of a team of the record. */
  lemma DecodedTeamIds(r: GameRecord)
    ensures forall k :: 0 <= k < |DecodeGame(r).players| ==> 0 <= DecodeGame(r).players[k].teamId < |r.teams|
  {
    SeatsLength(r.teams);
    var seats := Seats(r.teams);
    forall k | 0 <= k < |DecodeGame(r).players| ensures 0 <= DecodeGame(r).players[k].teamId < |r.teams| {
      var i, j := SeatOrigin(r.teams, k);
      SeatAt(r.teams, i, j);
    }
  }

  /** A "noresult" listed before a "win" ends the scan: the game is finished
      without a winning team. */
  lemma NoResultBeforeWin(a: PlayerRecord, b: PlayerRecord, r: GameRecord)
    requires a.result == Some("noresult") && b.result == Some("win")
    requires r.teams == [[a], [b]]
    ensures DecodeGame(r).status == Finished
    ensures DecodeGame(r).teamIdWon == NoResultsTeamId
  {
    DecodedWinnerIsFirstDecisive(r, 0, 0);
  }
}
