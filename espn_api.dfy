/** scripts/espn_api.py: the rows of today's scoreboard, one per event, built from the
    parsed ESPN scoreboard response (the HTTP request and the clock are not modelled). */
module EspnApi {
  import opened Results

  /** `competitor['team']`: only `displayName` is read. */
  datatype TeamName = TeamName(displayName: string)

  /** `homeAway` and `team` are read by subscript; `score` with `.get`. */
  datatype Competitor = Competitor(homeAway: string, team: TeamName, score: Option<string>)

  /** `status` is `status.type.description`. */
  datatype Competition = Competition(status: string, competitors: seq<Competitor>)

  datatype Event = Event(id: string, competitions: seq<Competition>)

  /** One row of the returned table. */
  datatype ScoreboardRow = ScoreboardRow(
    gameId: string,
    homeTeam: string,
    awayTeam: string,
    homeScore: Option<string>,
    awayScore: Option<string>,
    status: string)

  /** Why one event cannot be read: `competitions[0]` raises IndexError, or a `next(...)`
      search raises StopIteration. */
  datatype EventError = NoCompetition | NoHomeTeam | NoAwayTeam

  /** The error of the whole call, with the position of the event that raised it. */
  datatype ScoreboardError = EventFailed(index: nat, reason: EventError)

  const Home := "home"
  const Away := "away"

  /** Competitor `k` is the first one on the given side. */
  predicate IsFirstWithSide(cs: seq<Competitor>, side: string, k: nat) {
    k < |cs| && cs[k].homeAway == side && forall j | 0 <= j < k :: cs[j].homeAway != side
  }

  /** `next(team for team in teams if team['homeAway'] == side)`, with `None` for the
      StopIteration it raises when no competitor is on that side. */
  function FirstWithSide(cs: seq<Competitor>, side: string): (r: Option<Competitor>)
    ensures r.None? <==> forall k | 0 <= k < |cs| :: cs[k].homeAway != side
    ensures r.Some? ==> exists k: nat :: IsFirstWithSide(cs, side, k) && cs[k] == r.value
  {
    if cs == [] then None
    else if cs[0].homeAway == side then
      assert IsFirstWithSide(cs, side, 0);
      Some(cs[0])
    else
      var r := FirstWithSide(cs[1..], side);
      if r.Some? then
        var k: nat :| IsFirstWithSide(cs[1..], side, k) && cs[1..][k] == r.value;
        assert IsFirstWithSide(cs, side, k + 1);
        r
      else
        r
  }

  lemma {:induction false} FirstWithSideIsFirst(cs: seq<Competitor>, side: string, k: nat)
    requires IsFirstWithSide(cs, side, k)
    ensures FirstWithSide(cs, side) == Some(cs[k])
  {
    if k > 0 {
      FirstWithSideIsFirst(cs[1..], side, k - 1);
    }
  }

  /** The body of the event loop: the row of one event, or the error it raises. A row
      keeps the event's id and the status of its first competition. */
  function EventRow(e: Event): (r: Result<ScoreboardRow, EventError>)
    ensures e.competitions == [] ==> r == Failure(NoCompetition)
    ensures r.Success? ==> r.value.gameId == e.id && r.value.status == e.competitions[0].status
  {
    if e.competitions == [] then Failure(NoCompetition)
    else
      var c := e.competitions[0];
      match (FirstWithSide(c.competitors, Home), FirstWithSide(c.competitors, Away))
      case (None, _) => Failure(NoHomeTeam)
      case (Some(_), None) => Failure(NoAwayTeam)
      case (Some(h), Some(a)) =>
        Success(ScoreboardRow(e.id, h.team.displayName, a.team.displayName, h.score, a.score, c.status))
  }

  /** Only the first competition is read: home_team and away_team are the display names
      of its first home and first away competitor, their scores are copied (missing stays
      missing), and status is the competition's status. */
  lemma EventRowOf(e: Event, h: nat, a: nat)
    requires e.competitions != []
    requires IsFirstWithSide(e.competitions[0].competitors, Home, h)
    requires IsFirstWithSide(e.competitions[0].competitors, Away, a)
    ensures var cs := e.competitions[0].competitors;
            EventRow(e) == Success(ScoreboardRow(e.id, cs[h].team.displayName, cs[a].team.displayName,
                                                 cs[h].score, cs[a].score, e.competitions[0].status))
  {
    FirstWithSideIsFirst(e.competitions[0].competitors, Home, h);
    FirstWithSideIsFirst(e.competitions[0].competitors, Away, a);
  }

  /** An event fails exactly when it has no competition, or its first competition lacks
      a home or an away competitor; the missing piece checked first is reported. */
  lemma EventRowErrors(e: Event)
    ensures EventRow(e) == Failure(NoCompetition) <==> e.competitions == []
    ensures EventRow(e) == Failure(NoHomeTeam) <==>
              e.competitions != [] &&
              forall k | 0 <= k < |e.competitions[0].competitors| :: e.competitions[0].competitors[k].homeAway != Home
    ensures EventRow(e) == Failure(NoAwayTeam) <==>
              e.competitions != [] &&
              (exists k | 0 <= k < |e.competitions[0].competitors| :: e.competitions[0].competitors[k].homeAway == Home) &&
              forall k | 0 <= k < |e.competitions[0].competitors| :: e.competitions[0].competitors[k].homeAway != Away
  {
  }

  /** `fetch_espn_today_games` on the parsed response's `events` (`None` when the key
      is absent): an empty table when there are none, otherwise one row per event in
      order, or the error of the first event that cannot be read. */
  method FetchEspnTodayGames(events: Option<seq<Event>>) returns (r: Result<seq<ScoreboardRow>, ScoreboardError>)
    ensures events.GetOr([]) == [] ==> r == Success([])
    ensures r.Success? <==> forall i | 0 <= i < |events.GetOr([])| :: EventRow(events.GetOr([])[i]).Success?
    ensures r.Success? ==> |r.value| == |events.GetOr([])|
                           && forall i | 0 <= i < |r.value| :: r.value[i] == EventRow(events.GetOr([])[i]).value
    ensures r.Failure? ==> var i := r.error.index;
                           && i < |events.GetOr([])|
                           && EventRow(events.GetOr([])[i]) == Failure(r.error.reason)
                           && forall j | 0 <= j < i :: EventRow(events.GetOr([])[j]).Success?
  {
    var games := events.GetOr([]);
    if games == [] {
      return Success([]);
    }
    var rows: seq<ScoreboardRow> := [];
    for i := 0 to |games|
      invariant |rows| == i
      invariant forall j | 0 <= j < i :: EventRow(games[j]).Success? && rows[j] == EventRow(games[j]).value
    {
      var row := EventRow(games[i]);
      if row.Failure? {
        return Failure(EventFailed(i, row.error));
      }
      rows := rows + [row.value];
    }
    return Success(rows);
  }
}
