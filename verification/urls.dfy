/** The request URLs the script sends to the match-history service
    (`getGames`, `getUsersByUsername`), together with decoders that read a
    URL back as the request it denotes. The decoders state what a URL means
    to the service; the round-trip lemmas say the builders lose nothing. */
module Urls {
  import opened Wrappers
  import opened Text

  const ApiRoot: string := "https://aoe4world.com/api/v0/players/"
  const GamesPath: string := "/games"
  const SearchRoot: string := "https://aoe4world.com/api/v0/players/search?query="
  /** Default of `getGames`' optional `opponentId` and `limit` arguments. */
  const Unset: int := -1

  /** What a games request asks for: whose games, optionally only those
      against one opponent, optionally at most `limit` of them. */
  datatype GamesRequest = GamesRequest(playerId: int, opponent: Option<nat>, limit: Option<nat>)

  /** What a user search asks for. */
  datatype SearchRequest = SearchRequest(query: string, exact: bool, limit: Option<nat>)

  /** A filter argument is sent only when it is positive. */
  function Filter(x: int): (r: Option<nat>)
    ensures r.Some? <==> x > 0
    ensures r.Some? ==> r.value == x
  {
    if x > 0 then Some(x) else None
  }

  function GamesBase(playerId: int): string {
    ApiRoot + IntToString(playerId) + GamesPath
  }

  /** `key=value` as `URLSearchParams` renders a numeric value. */
  function Param(key: string, n: nat): string {
    key + "=" + NatToDigits(n)
  }

  /** The query string of `getGames`: `limit` is set before
      `opponent_profile_id`, and `?` is added only if one of them is set. */
  function GamesQuery(opponentId: int, limit: int): string {
    if limit > 0 && opponentId > 0 then
      "?" + (Param("limit", limit) + ("&" + Param("opponent_profile_id", opponentId)))
    else if limit > 0 then "?" + Param("limit", limit)
    else if opponentId > 0 then "?" + Param("opponent_profile_id", opponentId)
    else ""
  }

  /** The URL `getGames(playerId, opponentId, limit)` fetches. */
  function GamesUrl(playerId: int, opponentId: int, limit: int): (url: string)
    ensures IsPrefix(GamesBase(playerId), url)
    ensures limit <= 0 && opponentId <= 0 ==> url == GamesBase(playerId)
  {
    GamesBase(playerId) + GamesQuery(opponentId, limit)
  }

  /** Reads `key=digits`. */
  function DecodeParam(p: string): Option<(string, nat)> {
    var (key, rest) := SplitAt(p, '=');
    if |rest| >= 2 && AllDigits(rest[1..]) then Some((key, DigitsToNat(rest[1..]))) else None
  }

  /** Reads the query of a games URL as (opponent filter, limit). */
  function DecodeGamesQuery(q: string): Option<(Option<nat>, Option<nat>)> {
    if q == "" then Some((None, None))
    else if q[0] != '?' then None
    else
      var (first, rest) := SplitAt(q[1..], '&');
      match DecodeParam(first)
      case None => None
      case Some((key, v)) =>
        if rest == "" then
          if key == "limit" then Some((None, Some(v)))
          else if key == "opponent_profile_id" then Some((Some(v), None))
          else None
        else if key != "limit" then None
        else
          match DecodeParam(rest[1..])
          case Some((key2, w)) => if key2 == "opponent_profile_id" then Some((Some(w), Some(v))) else None
          case None => None
  }

  /** Reads a games URL as the request it denotes. */
  function DecodeGamesUrl(url: string): Option<GamesRequest> {
    if !IsPrefix(ApiRoot, url) then None
    else
      var (idText, rest) := SplitAt(url[|ApiRoot|..], '/');
      match ParseInt(idText)
      case None => None
      case Some(id) =>
        if !IsPrefix(GamesPath, rest) then None
        else
          match DecodeGamesQuery(rest[|GamesPath|..])
          case None => None
          case Some((opponent, limit)) => Some(GamesRequest(id, opponent, limit))
  }

  lemma ParamAvoids(key: string, n: nat, c: char)
    requires c !in key && c != '=' && !IsDigit(c)
    ensures c !in Param(key, n)
  {
  }

  lemma ParamRoundTrip(key: string, n: nat)
    requires '=' !in key
    ensures DecodeParam(Param(key, n)) == Some((key, n))
  {
    var d := NatToDigits(n);
    var rest := "=" + d;
    assert Param(key, n) == key + rest;
    SplitAtJoin(key, rest, '=');
    assert rest[1..] == d;
    assert AllDigits(d);
    DigitsRoundTrip(n);
  }

  lemma OneParamRoundTrip(key: string, n: nat)
    requires key == "limit" || key == "opponent_profile_id"
    ensures DecodeGamesQuery("?" + Param(key, n)) == Some(if key == "limit" then (None, Some(n)) else (Some(n), None))
  {
    var p := Param(key, n);
    assert ("?" + p)[1..] == p + "";
    ParamAvoids(key, n, '&');
    SplitAtJoin(p, "", '&');
    ParamRoundTrip(key, n);
  }

  lemma TwoParamsRoundTrip(limit: nat, opponentId: nat)
    ensures DecodeGamesQuery("?" + (Param("limit", limit) + ("&" + Param("opponent_profile_id", opponentId))))
              == Some((Some(opponentId), Some(limit)))
  {
    var first := Param("limit", limit);
    var second := Param("opponent_profile_id", opponentId);
    var q := "?" + (first + ("&" + second));
    assert q[1..] == first + ("&" + second);
    ParamAvoids("limit", limit, '&');
    SplitAtJoin(first, "&" + second, '&');
    assert ("&" + second)[1..] == second;
    ParamRoundTrip("limit", limit);
    ParamRoundTrip("opponent_profile_id", opponentId);
  }

  lemma GamesQueryRoundTrip(opponentId: int, limit: int)
    ensures DecodeGamesQuery(GamesQuery(opponentId, limit)) == Some((Filter(opponentId), Filter(limit)))
  {
    if limit > 0 && opponentId > 0 {
      TwoParamsRoundTrip(limit, opponentId);
    } else if limit > 0 {
      OneParamRoundTrip("limit", limit);
    } else if opponentId > 0 {
      OneParamRoundTrip("opponent_profile_id", opponentId);
    }
  }

  lemma DropRoot(root: string, rest: string)
    ensures IsPrefix(root, root + rest) && (root + rest)[|root|..] == rest
  {
  }

  lemma NoSlashInInt(n: int)
    ensures '/' !in IntToString(n)
  {
  }

  /** Reads back a games URL built from a player id and a query. */
  lemma DecodeGamesUrlOf(playerId: int, q: string, filters: (Option<nat>, Option<nat>))
    requires DecodeGamesQuery(q) == Some(filters)
    ensures DecodeGamesUrl(ApiRoot + (IntToString(playerId) + (GamesPath + q)))
              == Some(GamesRequest(playerId, filters.0, filters.1))
  {
    var id := IntToString(playerId);
    var tail := GamesPath + q;
    DropRoot(ApiRoot, id + tail);
    NoSlashInInt(playerId);
    assert tail[0] == '/';
    SplitAtJoin(id, tail, '/');
    IntRoundTrip(playerId);
    DropRoot(GamesPath, q);
  }

  /** `getGames` sends its player id, and sends a filter exactly when that
      argument is positive; with the defaults the URL has no query at all. */
  lemma GamesUrlRoundTrip(playerId: int, opponentId: int, limit: int)
    ensures DecodeGamesUrl(GamesUrl(playerId, opponentId, limit))
              == Some(GamesRequest(playerId, Filter(opponentId), Filter(limit)))
  {
    var q := GamesQuery(opponentId, limit);
    assert GamesUrl(playerId, opponentId, limit) == ApiRoot + (IntToString(playerId) + (GamesPath + q));
    GamesQueryRoundTrip(opponentId, limit);
    DecodeGamesUrlOf(playerId, q, (Filter(opponentId), Filter(limit)));
  }

  /** The parameters `getUsersByUsername` appends after the query text:
      `&exact=true` if `exact`, then `&limit=` if `limit` is positive. */
  function SearchParams(exact: bool, limit: int): string {
    (if exact then "&" + ExactParam else "") + LimitParam(limit)
  }

  const ExactParam: string := "exact=true"

  function LimitParam(limit: int): string {
    if limit > 0 then "&" + Param("limit", limit) else ""
  }

  /** The search URL as the script builds it: the username is pasted into the
      query without escaping. */
  function SearchUrlAsWritten(username: string, exact: bool, limit: int): (url: string)
    ensures IsPrefix(SearchRoot + username, url)
  {
    SearchRoot + username + SearchParams(exact, limit)
  }

  /** The search URL with the username percent-encoded, as
      `encodeURIComponent` would. */
  function SearchUrl(username: string, exact: bool, limit: int): (url: string)
    ensures IsPrefix(SearchRoot + EncodeComponent(username), url)
  {
    SearchRoot + EncodeComponent(username) + SearchParams(exact, limit)
  }

  /** Reads an optional trailing `&limit=digits`. */
  function DecodeSearchLimit(s: string): Option<Option<nat>> {
    if s == "" then Some(None)
    else if s[0] != '&' then None
    else
      match DecodeParam(s[1..])
      case Some((key, n)) => if key == "limit" then Some(Some(n)) else None
      case None => None
  }

  /** Reads the parameters after the query text as (exact, limit). */
  function DecodeSearchParams(s: string): Option<(bool, Option<nat>)> {
    if s == "" then Some((false, None))
    else if s[0] != '&' then None
    else
      var (first, rest) := SplitAt(s[1..], '&');
      if first == ExactParam then
        match DecodeSearchLimit(rest)
        case None => None
        case Some(l) => Some((true, l))
      else
        match DecodeSearchLimit(s)
        case None => None
        case Some(l) => Some((false, l))
  }

  /** Reads a search URL as the request the service sees: nothing from `#`
      on is sent (the endpoint itself has no `#`), the query text runs up to
      the first `&` and is percent-decoded. */
  function DecodeSearchUrl(url: string): Option<SearchRequest> {
    if !IsPrefix(SearchRoot, url) then None
    else
      var sent := SplitAt(url[|SearchRoot|..], '#').0;
      var (q, params) := SplitAt(sent, '&');
      match DecodeSearchParams(params)
      case None => None
      case Some((exact, limit)) => Some(SearchRequest(DecodeComponent(q), exact, limit))
  }

  lemma SearchLimitRoundTrip(limit: int)
    ensures DecodeSearchLimit(LimitParam(limit)) == Some(Filter(limit))
  {
    if limit > 0 {
      assert ("&" + Param("limit", limit))[1..] == Param("limit", limit);
      ParamRoundTrip("limit", limit);
    }
  }

  lemma SearchParamsRoundTrip(exact: bool, limit: int)
    ensures DecodeSearchParams(SearchParams(exact, limit)) == Some((exact, Filter(limit)))
  {
    var l := LimitParam(limit);
    var s := SearchParams(exact, limit);
    SearchLimitRoundTrip(limit);
    if exact {
      assert s == "&" + (ExactParam + l);
      assert s[1..] == ExactParam + l;
      SplitAtJoin(ExactParam, l, '&');
    } else if limit > 0 {
      var p := Param("limit", limit);
      assert s == "&" + p;
      assert s[1..] == p;
      var first := SplitAt(p, '&').0;
      assert first[0] == 'l';
    }
  }

  lemma SearchParamsAvoidHash(exact: bool, limit: int)
    ensures '#' !in SearchParams(exact, limit)
  {
  }

  /** Reads back a search URL whose query text has no `&` and no `#`. */
  lemma DecodeSearchUrlOf(q: string, params: string, exact: bool, limit: Option<nat>)
    requires '&' !in q && '#' !in q && '#' !in params
    requires params == [] || params[0] == '&'
    requires DecodeSearchParams(params) == Some((exact, limit))
    ensures DecodeSearchUrl(SearchRoot + (q + params)) == Some(SearchRequest(DecodeComponent(q), exact, limit))
  {
    var rest := q + params;
    assert '#' !in rest;
    SplitAtJoin(rest, [], '#');
    assert rest + [] == rest;
    DropRoot(SearchRoot, rest);
    SplitAtJoin(q, params, '&');
  }

  /** With the username escaped, the service reads back exactly the query,
      the exact flag and the positive limit that were asked for. */
  lemma SearchUrlRoundTrip(username: string, exact: bool, limit: int)
    ensures DecodeSearchUrl(SearchUrl(username, exact, limit)) == Some(SearchRequest(username, exact, Filter(limit)))
  {
    var e := EncodeComponent(username);
    var ps := SearchParams(exact, limit);
    assert SearchUrl(username, exact, limit) == SearchRoot + (e + ps);
    SearchParamsRoundTrip(exact, limit);
    SearchParamsAvoidHash(exact, limit);
    DecodeSearchUrlOf(e, ps, exact, Filter(limit));
    ComponentRoundTrip(username);
  }

  /** Two different searches never share a URL. */
  lemma SearchUrlInjective(u1: string, e1: bool, l1: int, u2: string, e2: bool, l2: int)
    requires SearchUrl(u1, e1, l1) == SearchUrl(u2, e2, l2)
    ensures u1 == u2 && e1 == e2 && Filter(l1) == Filter(l2)
  {
    SearchUrlRoundTrip(u1, e1, l1);
    SearchUrlRoundTrip(u2, e2, l2);
  }

  /** A name the unescaped search URL carries through unchanged: it has no
      character that ends the query text (`&`, `#`), that the service
      decodes (`%`, `+`), or that the URL parser of `fetch` deletes (tab,
      line feed, carriage return). */
  predicate PlainName(u: string) {
    && '&' !in u && '%' !in u && '#' !in u && '+' !in u
    && '\t' !in u && '\n' !in u && '\r' !in u
  }

  /** The URL parser of `fetch` also trims trailing spaces and control
      characters; they belong to the name only when the name ends the URL,
      that is, in a fuzzy search with no limit. */
  predicate SurvivesTrim(name: string, exact: bool, limit: int) {
    exact || limit > 0 || |name| == 0 || name[|name| - 1] > ' '
  }

  lemma {:induction false} DecodePlainPrefix(a: string, b: string)
    requires '%' !in a && '+' !in a
    ensures DecodeComponent(a + b) == a + DecodeComponent(b)
  {
    if |a| > 0 {
      assert (a + b)[0] == a[0];
      assert (a + b)[1..] == a[1..] + b;
      DecodePlainPrefix(a[1..], b);
      assert [a[0]] + (a[1..] + DecodeComponent(b)) == a + DecodeComponent(b);
    } else {
      assert a + b == b;
    }
  }

  lemma DecodePlain(s: string)
    requires '%' !in s && '+' !in s
    ensures DecodeComponent(s) == s
  {
    DecodePlainPrefix(s, []);
    assert s + [] == s;
  }

  lemma Regroup(root: string, u: string, x: string, l: string)
    ensures root + (u + x) + l == root + u + (x + l)
  {
  }

  lemma AsWrittenSameUrl(u: string, limit: int)
    ensures SearchUrlAsWritten(u + ("&" + ExactParam), false, limit) == SearchUrlAsWritten(u, true, limit)
  {
    var l := LimitParam(limit);
    assert SearchParams(true, limit) == ("&" + ExactParam) + l;
    assert SearchParams(false, limit) == l;
    Regroup(SearchRoot, u, "&" + ExactParam, l);
  }

  /** What `DecodeSearchUrl` reads from the unescaped URL of a name without
      `&`, `#`, `%` or `+`; the deletions of the URL parser are not part of
      the decoder and are excluded by `SearchUrlAsWrittenRoundTrip`. */
  lemma DecodeRawQuery(username: string, exact: bool, limit: int)
    requires '&' !in username && '%' !in username && '#' !in username && '+' !in username
    ensures DecodeSearchUrl(SearchUrlAsWritten(username, exact, limit))
              == Some(SearchRequest(username, exact, Filter(limit)))
  {
    var ps := SearchParams(exact, limit);
    assert SearchUrlAsWritten(username, exact, limit) == SearchRoot + (username + ps);
    SearchParamsRoundTrip(exact, limit);
    SearchParamsAvoidHash(exact, limit);
    DecodeSearchUrlOf(username, ps, exact, Filter(limit));
    DecodePlain(username);
  }

  /** As written, a plain name still reaches the service as it was given,
      with the exact flag and the positive limit, unless it ends the URL
      with a character the URL parser trims. */
  lemma SearchUrlAsWrittenRoundTrip(username: string, exact: bool, limit: int)
    requires PlainName(username) && SurvivesTrim(username, exact, limit)
    ensures DecodeSearchUrl(SearchUrlAsWritten(username, exact, limit))
              == Some(SearchRequest(username, exact, Filter(limit)))
  {
    DecodeRawQuery(username, exact, limit);
  }

  /** As written, a fuzzy search for a name ending in `&exact=true` sends the
      very URL of an exact search for the name without that ending, and the
      service reads it as such. */
  lemma SearchUrlAsWrittenConfusesQueries(u: string, limit: int)
    requires PlainName(u)
    ensures SearchUrlAsWritten(u + ("&" + ExactParam), false, limit) == SearchUrlAsWritten(u, true, limit)
    ensures DecodeSearchUrl(SearchUrlAsWritten(u + ("&" + ExactParam), false, limit))
              == Some(SearchRequest(u, true, Filter(limit)))
  {
    AsWrittenSameUrl(u, limit);
    SearchUrlAsWrittenRoundTrip(u, true, limit);
  }

  lemma DecodePlusJoin(u: string, v: string)
    requires PlainName(u) && PlainName(v)
    ensures DecodeComponent(u + "+" + v) == u + " " + v
  {
    var t := "+" + v;
    assert u + "+" + v == u + t;
    DecodePlainPrefix(u, t);
    assert t[0] == '+' && t[1..] == v;
    DecodePlain(v);
    assert u + ([' '] + v) == u + " " + v;
  }

  /** As written, a `+` in the name reaches the service as a space: a search
      for `u+v` is read as a search for `u v`. */
  lemma SearchUrlAsWrittenReadsPlusAsSpace(u: string, v: string, exact: bool, limit: int)
    requires PlainName(u) && PlainName(v) && SurvivesTrim(u + "+" + v, exact, limit)
    ensures DecodeSearchUrl(SearchUrlAsWritten(u + "+" + v, exact, limit))
              == Some(SearchRequest(u + " " + v, exact, Filter(limit)))
  {
    var name := u + "+" + v;
    var ps := SearchParams(exact, limit);
    assert SearchUrlAsWritten(name, exact, limit) == SearchRoot + (name + ps);
    SearchParamsRoundTrip(exact, limit);
    SearchParamsAvoidHash(exact, limit);
    assert '&' !in name && '#' !in name;
    DecodeSearchUrlOf(name, ps, exact, Filter(limit));
    DecodePlusJoin(u, v);
  }
}
