/** `MatchUpChecker`: waits for the player's most recent game to be a live
    one, then collects the match-ups of that game. The timer and the awaits
    of the script become explicit steps: `Start`, and one `Attempt` per run
    of `_findRecentGame` (the first one after `start` and the user fetch,
    later ones when the retry timer fires). An attempt is given the service
    as it answers then, and the time `now` at which a failed attempt reads
    the clock to test the deadline, which is after the fetch has returned. */
module Checker {
  import opened Wrappers
  import opened Domain
  import opened Urls
  import opened Api

  datatype Status = Init | Running | FinishedSuccessfully | FailedCouldNotFindGame

  /** A game may have started this long before the checker was created. */
  const RecentWindowMs: int := 3000
  /** The search gives up once this long after creation has passed. */
  const MsUntilFail: int := 10000
  /** Delay between a failed attempt and the next one. */
  const MsTillRetry: int := 3000

  /** The checker's fields. `scheduled` says that an attempt is pending (the
      first one after `start`, or a retry timer that has been set). */
  datatype MatchUpChecker = MatchUpChecker(
    status: Status,
    userId: int,
    findGameAfter: int,
    timeAtFail: int,
    game: Option<Game>,
    matchUps: Option<map<int, seq<Game>>>,
    attempts: nat,
    scheduled: bool)

  predicate Terminal(s: Status) {
    s == FinishedSuccessfully || s == FailedCouldNotFindGame
  }

  /** The most recent game qualifies: it exists, started no earlier than
      `after`, and is still being played. */
  predicate Qualifies(after: int, recent: seq<Game>) {
    |recent| > 0 && recent[0].startedAt >= after && recent[0].status == Playing
  }

  /** What every reachable checker satisfies. */
  predicate Valid(c: MatchUpChecker) {
    && (c.scheduled ==> c.status == Running)
    && (c.status == Init ==> c.attempts == 0 && c.game.None?)
    && (c.matchUps.Some? <==> c.status == FinishedSuccessfully)
    && (c.status == FinishedSuccessfully ==> c.game.Some? && Qualifies(c.findGameAfter, [c.game.value]))
    && (c.status == FailedCouldNotFindGame ==> c.attempts > 0)
  }

  /** The constructor, at time `now`. */
  function New(userId: int, now: int): (c: MatchUpChecker)
    ensures Valid(c) && c.status == Init && !c.scheduled
    ensures c.userId == userId && c.attempts == 0 && c.game.None? && c.matchUps.None?
    ensures c.findGameAfter == now - RecentWindowMs && c.timeAtFail == now + MsUntilFail
  {
    MatchUpChecker(Init, userId, now - RecentWindowMs, now + MsUntilFail, None, None, 0, false)
  }

  /** `start`: only the first call leaves INIT and sets the search going;
      every later call changes nothing. */
  function Start(c: MatchUpChecker): (r: MatchUpChecker)
    ensures c.status == Init ==> r == c.(status := Running, scheduled := true)
    ensures c.status != Init ==> r == c
    ensures Valid(c) ==> Valid(r)
  {
    if c.status != Init then c else c.(status := Running, scheduled := true)
  }

  /** The game list one attempt fetches: `getGames(userId, -1, 1)`. */
  function RecentGames(api: GamesApi, userId: int): seq<Game> {
    GetGames(api, userId, Unset, 1)
  }

  /** `_failedToFindGameLoop`: count the attempt, then give up if the
      deadline has passed, else set the retry timer. */
  function FailedAttempt(c: MatchUpChecker, now: int): (r: MatchUpChecker)
    ensures r.attempts == c.attempts + 1
    ensures r.(attempts := c.attempts, status := c.status, scheduled := c.scheduled) == c
    ensures c.status == Running ==> (r.status == FailedCouldNotFindGame <==> now > c.timeAtFail)
    ensures now <= c.timeAtFail ==> r.status == c.status && r.scheduled
    ensures now > c.timeAtFail ==> !r.scheduled
    ensures Valid(c) && c.status == Running ==> Valid(r)
  {
    var counted := c.(attempts := c.attempts + 1);
    if now > c.timeAtFail then counted.(status := FailedCouldNotFindGame, scheduled := false)
    else counted.(scheduled := true)
  }

  /** `_findRecentGame`, run when a pending attempt is made; `now` is the
      clock reading the deadline test would use, taken after the fetch.
      When the qualifying game does not list the player, collecting the
      match-ups fails inside the script's async code: the game has been
      recorded, no retry is set, and the checker stays RUNNING for ever. */
  function Attempt(c: MatchUpChecker, now: int, api: GamesApi): (r: MatchUpChecker)
    ensures !c.scheduled ==> r == c
    ensures r.userId == c.userId && r.findGameAfter == c.findGameAfter && r.timeAtFail == c.timeAtFail
    ensures Valid(c) && c.scheduled ==>
              var recent := RecentGames(api, c.userId);
              && (r.status == FinishedSuccessfully <==>
                    Qualifies(c.findGameAfter, recent) && HasPlayer(recent[0].players, c.userId))
              && (r.status == FinishedSuccessfully ==>
                    r.game == Some(recent[0]) && r.attempts == c.attempts
                    && r.matchUps == Some(GetMatchUps(api, c.userId, recent[0]).value))
              && (!Qualifies(c.findGameAfter, recent) ==>
                    r.attempts == c.attempts + 1 && r.game == c.game
                    && (r.status == FailedCouldNotFindGame <==> now > c.timeAtFail)
                    && (r.scheduled <==> now <= c.timeAtFail))
              && (Qualifies(c.findGameAfter, recent) && !HasPlayer(recent[0].players, c.userId) ==>
                    r.status == Running && !r.scheduled && r.game == Some(recent[0])
                    && r.attempts == c.attempts && r.matchUps == c.matchUps)
    ensures Valid(c) ==> Valid(r)
  {
    if !c.scheduled then c
    else
      var recent := RecentGames(api, c.userId);
      if !Qualifies(c.findGameAfter, recent) then FailedAttempt(c, now)
      else
        match GetMatchUps(api, c.userId, recent[0])
        case Failure(_) => c.(game := Some(recent[0]), scheduled := false)
        case Success(m) =>
          c.(game := Some(recent[0]), matchUps := Some(m), status := FinishedSuccessfully, scheduled := false)
  }

  /** One thing that can happen to a checker. */
  datatype Event = StartCall | AttemptAt(now: int, api: GamesApi)

  function Step(c: MatchUpChecker, e: Event): MatchUpChecker {
    match e
    case StartCall => Start(c)
    case AttemptAt(now, api) => Attempt(c, now, api)
  }

  function Run(c: MatchUpChecker, events: seq<Event>): MatchUpChecker
    decreases |events|
  {
    if |events| == 0 then c else Run(Step(c, events[0]), events[1..])
  }

  lemma {:induction false} RunPreservesValid(c: MatchUpChecker, events: seq<Event>)
    requires Valid(c)
    ensures Valid(Run(c, events))
    decreases |events|
  {
    if |events| > 0 {
      RunPreservesValid(Step(c, events[0]), events[1..]);
    }
  }

  /** A finished or failed checker never changes again, whatever happens. */
  lemma {:induction false} TerminalIsFinal(c: MatchUpChecker, events: seq<Event>)
    requires Valid(c) && Terminal(c.status)
    ensures Run(c, events) == c
    decreases |events|
  {
    if |events| > 0 {
      TerminalIsFinal(c, events[1..]);
    }
  }

  function Starts(n: nat): (es: seq<Event>)
    ensures |es| == n && forall i :: 0 <= i < n ==> es[i] == StartCall
  {
    seq(n, i => StartCall)
  }

  /** Any number of `start` calls act as one: the search is launched once. */
  lemma {:induction false} RepeatedStarts(c: MatchUpChecker, n: nat)
    requires n > 0
    ensures Run(c, Starts(n)) == Start(c)
    decreases n
  {
    if n > 1 {
      assert Starts(n)[1..] == Starts(n - 1);
      RepeatedStarts(Start(c), n - 1);
    }
  }

  /** Attempts fired at least `MsTillRetry` apart, starting no earlier than
      creation time `t0`. */
  predicate SpacedAttempts(events: seq<Event>, t0: int, k: nat) {
    forall i :: 0 <= i < |events| ==> events[i].AttemptAt? && events[i].now >= t0 + (k + i) * MsTillRetry
  }

  lemma {:induction false} RetryBound(c: MatchUpChecker, t0: int, events: seq<Event>, k: nat)
    requires Valid(c) && c.timeAtFail == t0 + MsUntilFail
    requires c.attempts <= 5
    requires c.scheduled ==> c.attempts == k <= 4
    requires SpacedAttempts(events, t0, k)
    ensures Run(c, events).attempts <= 5
    ensures Run(c, events).scheduled ==> Run(c, events).attempts == k + |events| <= 4
    decreases |events|
  {
    if |events| > 0 {
      var c' := Step(c, events[0]);
      assert SpacedAttempts(events[1..], t0, k + 1) by {
        forall i | 0 <= i < |events| - 1 ensures events[1..][i].AttemptAt? && events[1..][i].now >= t0 + (k + 1 + i) * MsTillRetry {
          assert events[1..][i] == events[i + 1];
        }
      }
      RetryBound(c', t0, events[1..], k + 1);
    }
  }

  /** The search is bounded: when attempts fire no faster than the retry
      delay, at most five attempts are made, and after five the checker has
      stopped searching. */
  lemma SearchStopsWithinFiveAttempts(userId: int, t0: int, events: seq<Event>)
    requires SpacedAttempts(events, t0, 0)
    ensures Run(Start(New(userId, t0)), events).attempts <= 5
    ensures |events| >= 5 ==> !Run(Start(New(userId, t0)), events).scheduled
  {
    RetryBound(Start(New(userId, t0)), t0, events, 0);
  }

  /** Attempts at exactly the retry interval, none of which sees a live
      game. */
  predicate FruitlessAttempts(events: seq<Event>, userId: int, t0: int, after: int, k: nat) {
    forall i :: 0 <= i < |events| ==>
      && events[i].AttemptAt?
      && events[i].now == t0 + (k + i) * MsTillRetry
      && !Qualifies(after, RecentGames(events[i].api, userId))
  }

  lemma {:induction false} Exhaustion(c: MatchUpChecker, t0: int, events: seq<Event>, k: nat)
    requires Valid(c) && c.scheduled && c.attempts == k < 5
    requires c.timeAtFail == t0 + MsUntilFail
    requires k + |events| == 5
    requires FruitlessAttempts(events, c.userId, t0, c.findGameAfter, k)
    ensures Run(c, events).status == FailedCouldNotFindGame
    ensures Run(c, events).attempts == 5
    decreases |events|
  {
    var c' := Step(c, events[0]);
    if k < 4 {
      assert FruitlessAttempts(events[1..], c.userId, t0, c.findGameAfter, k + 1) by {
        forall i | 0 <= i < |events| - 1
          ensures events[1..][i].AttemptAt? && events[1..][i].now == t0 + (k + 1 + i) * MsTillRetry
                  && !Qualifies(c.findGameAfter, RecentGames(events[1..][i].api, c.userId))
        {
          assert events[1..][i] == events[i + 1];
        }
      }
      Exhaustion(c', t0, events[1..], k + 1);
    }
  }

  /** The exhaustion scenario: the most recent game never qualifies and the
      deadline is tested every 3 s from creation time (instant fetches).
      Attempts at 0, 3, 6 and 9 s
      are within the 10 s deadline and are retried; the fifth, at 12 s, gives
      up. */
  lemma ExhaustionAfterFiveAttempts(userId: int, t0: int, events: seq<Event>)
    requires |events| == 5
    requires FruitlessAttempts(events, userId, t0, t0 - RecentWindowMs, 0)
    ensures Run(Start(New(userId, t0)), events).status == FailedCouldNotFindGame
    ensures Run(Start(New(userId, t0)), events).attempts == 5
  {
    Exhaustion(Start(New(userId, t0)), t0, events, 0);
  }

  /** The first attempt of a checker created at `t0` and started: it
      succeeds iff the player's most recent game started at most 3 s before
      `t0`, is still being played and lists the player; otherwise, unless a
      qualifying game lacks the player, it counts one failed attempt and
      retries iff the 10 s deadline has not passed. */
  lemma FirstAttempt(userId: int, t0: int, now: int, api: GamesApi)
    ensures var recent := RecentGames(api, userId);
            var r := Attempt(Start(New(userId, t0)), now, api);
            var live := |recent| > 0 && recent[0].startedAt >= t0 - 3000 && recent[0].status == Playing;
            && (r.status == FinishedSuccessfully <==> live && HasPlayer(recent[0].players, userId))
            && (r.status == FinishedSuccessfully ==>
                  r.game == Some(recent[0]) && r.matchUps == Some(GetMatchUps(api, userId, recent[0]).value))
            && (!live ==> r.attempts == 1 && r.game.None? && (r.scheduled <==> now <= t0 + 10000))
  {
  }
}
