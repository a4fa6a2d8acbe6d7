/** scripts/update_with_espn.py: building one box-score row per team of each
    scraped game, and appending a batch to the stored raw-games table. */
module UpdateWithEspn {
  import opened Results
  import Dedup

  // ---------------------------------------------------------------------------
  // Parsed JSON. Keys read with a subscript are plain fields (the feed always
  // carries them); keys read with `.get` are options.

  /** One scoreboard event: `game['id']` and `game['date']`. */
  datatype Event = Event(id: string, date: string)

  /** A box-score team's "team" object. */
  datatype TeamRef = TeamRef(id: Option<string>, abbreviation: Option<string>, displayName: Option<string>)

  /** One entry of a team's "statistics" list: `s['name']`, `s['displayValue']`. */
  datatype Stat = Stat(name: string, displayValue: string)

  /** One entry of the box score's "teams" list; `winner` is the truthiness of its "winner" key. */
  datatype BoxTeam = BoxTeam(team: TeamRef, statistics: Option<seq<Stat>>, winner: bool)

  datatype Boxscore = Boxscore(teams: Option<seq<BoxTeam>>)
  datatype Summary = Summary(boxscore: Option<Boxscore>)

  /** A scoreboard event with its summary response; `None` when that request did
      not answer 200. */
  datatype FetchedGame = FetchedGame(event: Event, summary: Option<Summary>)

  /** One row of the raw-games table. `stats` maps each statistic column to its text. */
  datatype BoxRow = BoxRow(
    seasonId: string,
    teamId: string,
    teamAbbreviation: string,
    teamName: string,
    gameId: string,
    gameDate: string,
    matchup: string,
    wl: string,
    stats: map<string, string>)

  const Season := "2024-25"

  /** For each statistic column: the ESPN stat name it is read from and its default. */
  const StatSources: map<string, (string, string)> := map[
    "MIN" := ("MIN", "240"),
    "PTS" := ("PTS", "0"),
    "FGM" := ("FGM", "0"),
    "FGA" := ("FGA", "0"),
    "FG_PCT" := ("FG%", "0"),
    "FG3M" := ("3PM", "0"),
    "FG3A" := ("3PA", "0"),
    "FG3_PCT" := ("3P%", "0"),
    "FTM" := ("FTM", "0"),
    "FTA" := ("FTA", "0"),
    "FT_PCT" := ("FT%", "0"),
    "OREB" := ("OREB", "0"),
    "DREB" := ("DREB", "0"),
    "REB" := ("REB", "0"),
    "AST" := ("AST", "0"),
    "STL" := ("STL", "0"),
    "BLK" := ("BLK", "0"),
    "TOV" := ("TO", "0"),
    "PF" := ("PF", "0"),
    "PLUS_MINUS" := ("+/-", "0")]

  function StatName(s: Stat): string { s.name }

  /** `{s['name']: s['displayValue'] for s in stats}`: every stat name is a key, and a
      name that occurs several times maps to the value of its last occurrence. */
  function StatMap(stats: seq<Stat>): (m: map<string, string>)
    ensures m.Keys == Dedup.KeySet(stats, StatName)
    ensures forall i | 0 <= i < |stats| && Dedup.IsLastOfKey(stats, StatName, i) ::
              m[stats[i].name] == stats[i].displayValue
  {
    if stats == [] then map[]
    else
      var init := stats[..|stats| - 1];
      var last := stats[|stats| - 1];
      assert stats == init + [last];
      StatMapSnoc(init, last, StatMap(init));
      StatMap(init)[last.name := last.displayValue]
  }

  /** The inductive step of StatMap: adding the entry of a final stat to the map of the
      stats before it gives the map of all of them. */
  lemma StatMapSnoc(init: seq<Stat>, last: Stat, mi: map<string, string>)
    requires mi.Keys == Dedup.KeySet(init, StatName)
    requires forall i | 0 <= i < |init| && Dedup.IsLastOfKey(init, StatName, i) ::
               mi[init[i].name] == init[i].displayValue
    ensures var stats, m := init + [last], mi[last.name := last.displayValue];
            && m.Keys == Dedup.KeySet(stats, StatName)
            && forall i | 0 <= i < |stats| && Dedup.IsLastOfKey(stats, StatName, i) ::
                 m[stats[i].name] == stats[i].displayValue
  {
    var stats, m := init + [last], mi[last.name := last.displayValue];
    Dedup.KeySetSnoc(init, last, StatName);
    forall i | 0 <= i < |stats| && Dedup.IsLastOfKey(stats, StatName, i)
      ensures m[stats[i].name] == stats[i].displayValue
    {
      if i < |init| {
        assert StatName(stats[|init|]) != StatName(stats[i]);
        forall j | i < j < |init| ensures StatName(init[j]) != StatName(init[i]) {
          assert stats[j] == init[j];
        }
        assert Dedup.IsLastOfKey(init, StatName, i);
      }
    }
  }

  function StatOr(m: map<string, string>, name: string, default: string): string {
    if name in m then m[name] else default
  }

  /** `game['date'][:10]`. */
  function GameDate(date: string): (d: string)
    ensures |d| == if |date| < 10 then |date| else 10
    ensures d <= date
  {
    if |date| < 10 then date else date[..10]
  }

  /** The `entry` dict built for one team that has statistics: it has exactly the
      statistic columns, belongs to the event's game, and WL is "W" exactly for a
      winner (BoxRowFixedFields gives the team columns). */
  function BoxRowOf(e: Event, t: BoxTeam, stats: seq<Stat>): (r: BoxRow)
    ensures r.stats.Keys == StatSources.Keys
    ensures r.gameId == e.id && r.gameDate <= e.date
    ensures r.wl == "W" <==> t.winner
  {
    var sm := StatMap(stats);
    BoxRow(
      seasonId := Season,
      teamId := t.team.id.GetOr(""),
      teamAbbreviation := t.team.abbreviation.GetOr(""),
      teamName := t.team.displayName.GetOr(""),
      gameId := e.id,
      gameDate := GameDate(e.date),
      matchup := t.team.displayName.GetOr("") + " vs ???",
      wl := if t.winner then "W" else "L",
      stats := map c | c in StatSources :: StatOr(sm, StatSources[c].0, StatSources[c].1))
  }

  /** Every statistic column is present; it holds the value of the last stat carrying
      its ESPN name, or its default when no stat carries that name. */
  lemma BoxRowStats(e: Event, t: BoxTeam, stats: seq<Stat>)
    ensures BoxRowOf(e, t, stats).stats.Keys == StatSources.Keys
    ensures forall c, i | c in StatSources && 0 <= i < |stats| && stats[i].name == StatSources[c].0
                         && Dedup.IsLastOfKey(stats, StatName, i) ::
              BoxRowOf(e, t, stats).stats[c] == stats[i].displayValue
    ensures forall c | c in StatSources && StatSources[c].0 !in Dedup.KeySet(stats, StatName) ::
              BoxRowOf(e, t, stats).stats[c] == StatSources[c].1
  {
  }

  /** MIN defaults to "240" and every other statistic to "0"; the renamed columns read
      TO, 3PM, 3PA, +/- and the percentage names. */
  lemma StatSourcesTable()
    ensures forall c | c in StatSources :: StatSources[c].1 == (if c == "MIN" then "240" else "0")
    ensures StatSources["TOV"].0 == "TO" && StatSources["PLUS_MINUS"].0 == "+/-"
    ensures StatSources["FG3M"].0 == "3PM" && StatSources["FG3A"].0 == "3PA"
    ensures StatSources["FG_PCT"].0 == "FG%" && StatSources["FG3_PCT"].0 == "3P%" && StatSources["FT_PCT"].0 == "FT%"
  {
  }

  /** The fixed and derived columns of a row: the season, the team's id, abbreviation
      and display name ("" when absent), the game id, the date's first ten characters,
      the display name followed by the placeholder, and WL from the winner flag. */
  lemma BoxRowFixedFields(e: Event, t: BoxTeam, stats: seq<Stat>)
    ensures var r := BoxRowOf(e, t, stats);
      && r.seasonId == "2024-25"
      && r.teamId == t.team.id.GetOr("")
      && r.teamAbbreviation == t.team.abbreviation.GetOr("")
      && r.teamName == t.team.displayName.GetOr("")
      && r.gameId == e.id
      && r.gameDate <= e.date && |r.gameDate| == (if |e.date| < 10 then |e.date| else 10)
      && r.matchup == t.team.displayName.GetOr("") + " vs ???"
      && (r.wl == "W" <==> t.winner)
      && (r.wl == "L" <==> !t.winner)
  {
  }

  /** `box_data.get('boxscore', {}).get('teams', [])`, or no teams when the summary
      request failed. */
  function BoxTeams(g: FetchedGame): seq<BoxTeam> {
    match g.summary
    case None => []
    case Some(Summary(None)) => []
    case Some(Summary(Some(b))) => b.teams.GetOr([])
  }

  predicate HasStats(t: BoxTeam) {
    t.statistics.Some? && t.statistics.value != []
  }

  /** The rows of the teams `ts` of event `e`: one per team with statistics, in order. */
  function TeamRows(e: Event, ts: seq<BoxTeam>): (rows: seq<BoxRow>)
    ensures |rows| <= |ts|
  {
    if ts == [] then []
    else
      var t := ts[|ts| - 1];
      TeamRows(e, ts[..|ts| - 1]) + (if HasStats(t) then [BoxRowOf(e, t, t.statistics.value)] else [])
  }

  /** The rows one game contributes: none unless its box score lists exactly two teams. */
  function GameRows(g: FetchedGame): (rows: seq<BoxRow>)
    ensures |rows| <= 2
    ensures |BoxTeams(g)| != 2 ==> rows == []
  {
    var ts := BoxTeams(g);
    if |ts| != 2 then [] else TeamRows(g.event, ts)
  }

  /** The rows of all games, game by game: at most two per game. */
  function AllRows(games: seq<FetchedGame>): (rows: seq<BoxRow>)
    ensures |rows| <= 2 * |games|
  {
    if games == [] then [] else AllRows(games[..|games| - 1]) + GameRows(games[|games| - 1])
  }

  /** A game with two teams yields one row per team with statistics, in team order. */
  lemma GameRowsOfTwoTeams(g: FetchedGame)
    requires |BoxTeams(g)| == 2
    ensures var t0 := BoxTeams(g)[0];
            var t1 := BoxTeams(g)[1];
            GameRows(g) ==
              (if HasStats(t0) then [BoxRowOf(g.event, t0, t0.statistics.value)] else [])
              + (if HasStats(t1) then [BoxRowOf(g.event, t1, t1.statistics.value)] else [])
  {
    var ts := BoxTeams(g);
    assert ts[..|ts| - 1] == [ts[0]];
    assert [ts[0]][..0] == [];
    assert TeamRows(g.event, [ts[0]]) == TeamRows(g.event, []) + (if HasStats(ts[0]) then [BoxRowOf(g.event, ts[0], ts[0].statistics.value)] else []);
  }

  /** Every row belongs to its game: its GAME_ID, date and season come from the event. */
  lemma {:induction false} AllRowsBelong(games: seq<FetchedGame>)
    ensures forall r | r in AllRows(games) ::
              r.seasonId == Season && (r.wl == "W" || r.wl == "L")
              && exists g | g in games :: r.gameId == g.event.id && r.gameDate == GameDate(g.event.date)
  {
    if games != [] {
      var init := games[..|games| - 1];
      var g := games[|games| - 1];
      AllRowsBelong(init);
      TeamRowsBelong(g.event, BoxTeams(g));
      forall r | r in AllRows(games)
        ensures r.seasonId == Season && (r.wl == "W" || r.wl == "L")
                && exists h | h in games :: r.gameId == h.event.id && r.gameDate == GameDate(h.event.date)
      {
        if r in AllRows(init) {
          var h :| h in init && r.gameId == h.event.id && r.gameDate == GameDate(h.event.date);
          assert h in games;
        } else {
          assert r in GameRows(g);
          assert g in games;
        }
      }
    }
  }

  lemma {:induction false} TeamRowsBelong(e: Event, ts: seq<BoxTeam>)
    ensures forall r | r in TeamRows(e, ts) ::
              r.seasonId == Season && (r.wl == "W" || r.wl == "L")
              && r.gameId == e.id && r.gameDate == GameDate(e.date)
  {
    if ts != [] {
      TeamRowsBelong(e, ts[..|ts| - 1]);
    }
  }

  /** The scraping loop of `fetch_recent_box_scores`, over games whose requests have
      already been made: skips games without exactly two teams and teams without
      statistics, appending one row per remaining team. */
  method FetchRecentBoxScores(games: seq<FetchedGame>) returns (rows: seq<BoxRow>)
    ensures rows == AllRows(games)
  {
    rows := [];
    for gi := 0 to |games|
      invariant rows == AllRows(games[..gi])
    {
      var game := games[gi];
      assert games[..gi + 1][..gi] == games[..gi];
      var teams := BoxTeams(game);
      if |teams| != 2 {
        continue;
      }
      ghost var before := rows;
      for ti := 0 to |teams|
        invariant rows == before + TeamRows(game.event, teams[..ti])
      {
        var team := teams[ti];
        assert teams[..ti + 1][..ti] == teams[..ti];
        if !HasStats(team) {
          continue;
        }
        var entry := BoxRowOf(game.event, team, team.statistics.value);
        rows := rows + [entry];
      }
      assert teams[..|teams|] == teams;
    }
    assert games[..|games|] == games;
  }

  // ---------------------------------------------------------------------------
  // append_to_raw_csv

  /** The `subset` of the drop: (GAME_ID, TEAM_ID). */
  function BoxKey(r: BoxRow): (string, string) {
    (r.gameId, r.teamId)
  }

  /** `append_to_raw_csv` on the stored table (`None` when there is no file): the new
      file contents. An empty batch writes nothing; otherwise stored rows then new
      rows, keeping the first row per key, with or without a stored file. */
  method AppendToRawCsv(stored: Option<seq<BoxRow>>, batch: seq<BoxRow>)
    returns (file: Option<seq<BoxRow>>)
    ensures batch == [] ==> file == stored
    ensures batch != [] ==> file == Some(Dedup.KeepFirst(stored.GetOr([]) + batch, BoxKey))
    ensures batch != [] ==> Dedup.DistinctKeys(file.value, BoxKey)
    ensures batch != [] ==> Dedup.KeySet(file.value, BoxKey) == Dedup.KeySet(stored.GetOr([]) + batch, BoxKey)
  {
    if batch == [] {
      return stored;
    }
    var combined := match stored case Some(existing) => existing + batch case None => batch;
    assert combined == stored.GetOr([]) + batch;
    combined := Dedup.DropDuplicatesKeepFirst(combined, BoxKey);
    Dedup.KeepFirstSpec(stored.GetOr([]) + batch, BoxKey);
    file := Some(combined);
  }
}
