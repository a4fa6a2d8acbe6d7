/** scripts/features.py: each game becomes two team rows, the rows are sorted by
    team and date, and each row gets the wins and mean game total of the team's
    previous five games. */
module Features {
  import opened Results
  import opened Text
  import PreprocessData

  type CleanGame = PreprocessData.CleanGame

  /** One flattened row: GAME_ID, GAME_DATE, TEAM, OPPONENT, WON, TOTAL_POINTS. */
  datatype TeamGame = TeamGame(
    gameId: int,
    gameDate: string,
    team: string,
    opponent: string,
    won: int,
    totalPoints: int)

  /** A flattened row with AVG_PTS_LAST_5 and WINS_LAST_5 (`None` for pandas' NaN). */
  datatype FeatureRow = FeatureRow(game: TeamGame, avgPtsLast5: Option<real>, winsLast5: Option<int>)

  /** `teams[i]` or `results[i]` out of range in the game at this position, or a column
      missing from the flattened table (a table built from no rows has no columns). */
  datatype FeatureError = IndexError(gameIndex: nat) | KeyError(column: string)

  // ---------------------------------------------------------------------------
  // Flattening

  /** Both indices 0 and 1 of TEAMS and TEAM_RESULTS exist. */
  predicate Indexable(g: CleanGame) {
    |g.teams| >= 2 && |g.teamResults| >= 2
  }

  /** The row for side `i` of game `g`: that side's team against the other side, WON
      a 0/1 flag that is 1 exactly for a "W" result. */
  function TeamGameOf(g: CleanGame, i: nat): (r: TeamGame)
    requires i < 2 && Indexable(g)
    ensures r.team == g.teams[i] && r.opponent == g.teams[1 - i]
    ensures 0 <= r.won <= 1 && (r.won == 1 <==> g.teamResults[i] == "W")
  {
    TeamGame(g.gameId, g.gameDate, g.teams[i], g.teams[1 - i],
             if g.teamResults[i] == "W" then 1 else 0, g.totalPoints)
  }

  /** The two rows of a game mirror each other: each one's team is the other's
      opponent, they share GAME_ID, GAME_DATE and the game's TOTAL_POINTS, and WON is 1
      exactly when that side's result is "W". */
  lemma TeamGamePair(g: CleanGame)
    requires Indexable(g)
    ensures TeamGameOf(g, 0).team == TeamGameOf(g, 1).opponent == g.teams[0]
    ensures TeamGameOf(g, 1).team == TeamGameOf(g, 0).opponent == g.teams[1]
    ensures forall i | 0 <= i < 2 ::
              && TeamGameOf(g, i).gameId == g.gameId
              && TeamGameOf(g, i).gameDate == g.gameDate
              && TeamGameOf(g, i).totalPoints == g.totalPoints
              && (TeamGameOf(g, i).won == 1 <==> g.teamResults[i] == "W")
              && (TeamGameOf(g, i).won == 0 <==> g.teamResults[i] != "W")
  {
  }

  predicate AllIndexable(games: seq<CleanGame>) {
    forall k | 0 <= k < |games| :: Indexable(games[k])
  }

  /** Two rows per game, game by game. */
  function FlatRows(games: seq<CleanGame>): (rows: seq<TeamGame>)
    requires AllIndexable(games)
    ensures |rows| == 2 * |games|
  {
    if games == [] then []
    else
      var g := games[|games| - 1];
      FlatRows(games[..|games| - 1]) + [TeamGameOf(g, 0), TeamGameOf(g, 1)]
  }

  /** Game `k` yields rows `2k` (its first team) and `2k + 1` (its second). */
  lemma {:induction false} FlatRowsAt(games: seq<CleanGame>)
    requires AllIndexable(games)
    ensures |FlatRows(games)| == 2 * |games|
    ensures forall k | 0 <= k < |games| ::
              FlatRows(games)[2 * k] == TeamGameOf(games[k], 0)
              && FlatRows(games)[2 * k + 1] == TeamGameOf(games[k], 1)
  {
    if games != [] {
      var init := games[..|games| - 1];
      FlatRowsAt(init);
      assert forall k | 0 <= k < |init| :: init[k] == games[k];
    }
  }

  /** The flattening loop of `generate_features`: fails at the first game lacking a
      second team or result (pandas raises there), and otherwise gives two rows per game. */
  method FlattenGames(games: seq<CleanGame>) returns (r: Result<seq<TeamGame>, FeatureError>)
    ensures r.Success? <==> AllIndexable(games)
    ensures r.Success? ==> r.value == FlatRows(games)
    ensures r.Failure? ==> r.error.IndexError? && r.error.gameIndex < |games|
                           && !Indexable(games[r.error.gameIndex])
                           && AllIndexable(games[..r.error.gameIndex])
  {
    var rows: seq<TeamGame> := [];
    for k := 0 to |games|
      invariant AllIndexable(games[..k])
      invariant rows == FlatRows(games[..k])
    {
      var g := games[k];
      if !Indexable(g) {
        return Failure(IndexError(k));
      }
      assert games[..k + 1][..k] == games[..k];
      for i := 0 to 2
        invariant rows == FlatRows(games[..k]) + seq(i, j requires 0 <= j < i => TeamGameOf(g, j))
      {
        rows := rows + [TeamGameOf(g, i)];
      }
    }
    assert games[..|games|] == games;
    return Success(rows);
  }

  // ---------------------------------------------------------------------------
  // sort_values(['TEAM', 'GAME_DATE'])

  /** Order by team name, then by date (ISO dates compare as strings). */
  predicate TeamDateLe(a: TeamGame, b: TeamGame) {
    if a.team != b.team then StrLe(a.team, b.team) else StrLe(a.gameDate, b.gameDate)
  }

  lemma TeamDateTotal(a: TeamGame, b: TeamGame)
    ensures TeamDateLe(a, b) || TeamDateLe(b, a)
  {
    StrLeTotal(a.team, b.team);
    StrLeTotal(a.gameDate, b.gameDate);
  }

  lemma TeamDateTransitive(a: TeamGame, b: TeamGame, c: TeamGame)
    requires TeamDateLe(a, b) && TeamDateLe(b, c)
    ensures TeamDateLe(a, c)
  {
    if a.team == b.team && b.team == c.team {
      StrLeTransitive(a.gameDate, b.gameDate, c.gameDate);
    } else if a.team == c.team {
      StrLeAntisymmetric(a.team, b.team);
    } else if a.team == b.team || b.team == c.team {
    } else {
      StrLeTransitive(a.team, b.team, c.team);
    }
  }

  predicate SortedByTeamDate(s: seq<TeamGame>) {
    forall i, j | 0 <= i < j < |s| :: TeamDateLe(s[i], s[j])
  }

  function Insert(x: TeamGame, s: seq<TeamGame>): (r: seq<TeamGame>)
    requires SortedByTeamDate(s)
    ensures |r| == |s| + 1
    ensures multiset(r) == multiset(s) + multiset{x}
    ensures SortedByTeamDate(r)
  {
    if s == [] then [x]
    else if TeamDateLe(x, s[0]) then
      InsertFrontSorted(x, s);
      [x] + s
    else
      var rest := Insert(x, s[1..]);
      assert s == [s[0]] + s[1..];
      TeamDateTotal(x, s[0]);
      InsertBehindSorted(s[0], x, s[1..], rest);
      [s[0]] + rest
  }

  lemma InsertFrontSorted(x: TeamGame, s: seq<TeamGame>)
    requires SortedByTeamDate(s) && s != [] && TeamDateLe(x, s[0])
    ensures SortedByTeamDate([x] + s)
  {
    var r := [x] + s;
    forall i, j | 0 <= i < j < |r| ensures TeamDateLe(r[i], r[j]) {
      if i == 0 {
        if j > 1 { TeamDateTransitive(x, s[0], s[j - 1]); }
      } else {
        assert r[i] == s[i - 1] && r[j] == s[j - 1];
      }
    }
  }

  lemma InsertBehindSorted(y: TeamGame, x: TeamGame, tail: seq<TeamGame>, rest: seq<TeamGame>)
    requires SortedByTeamDate([y] + tail) && TeamDateLe(y, x)
    requires SortedByTeamDate(rest) && multiset(rest) == multiset(tail) + multiset{x}
    ensures SortedByTeamDate([y] + rest)
  {
    var r := [y] + rest;
    forall j | 0 <= j < |rest| ensures TeamDateLe(y, rest[j]) {
      assert rest[j] in multiset(rest);
      if rest[j] != x {
        assert rest[j] in multiset(tail);
        var m :| 0 <= m < |tail| && tail[m] == rest[j];
        assert ([y] + tail)[0] == y && ([y] + tail)[m + 1] == tail[m];
      }
    }
    forall i, j | 0 <= i < j < |r| ensures TeamDateLe(r[i], r[j]) {
      assert r[j] == rest[j - 1];
      if i > 0 { assert r[i] == rest[i - 1]; }
    }
  }

  /** `sort_values(['TEAM', 'GAME_DATE'])`: a permutation of the rows, ordered by team
      and then by date. */
  function SortByTeamDate(s: seq<TeamGame>): (r: seq<TeamGame>)
    ensures |r| == |s|
    ensures multiset(r) == multiset(s)
    ensures SortedByTeamDate(r)
  {
    if s == [] then []
    else
      assert s == [s[0]] + s[1..];
      Insert(s[0], SortByTeamDate(s[1..]))
  }

  // ---------------------------------------------------------------------------
  // groupby('TEAM') ... shift(1).rolling(5)

  /** The rows of team `t` among `s`, in order (one group of `groupby('TEAM')`). */
  function ColumnOf(s: seq<TeamGame>, t: string): (c: seq<TeamGame>)
    ensures |c| <= |s|
    ensures forall x | x in c :: x in s && x.team == t
  {
    if s == [] then []
    else
      var last := s[|s| - 1];
      ColumnOf(s[..|s| - 1], t) + (if last.team == t then [last] else [])
  }

  /** The position of row `p` within its team's group: how many rows of the same team
      come before it. */
  function PriorCount(s: seq<TeamGame>, p: nat): nat
    requires p < |s|
  {
    |ColumnOf(s[..p], s[p].team)|
  }

  /** A group of a prefix is a prefix of the group. */
  lemma {:induction false} ColumnOfPrefix(s: seq<TeamGame>, q: nat, t: string)
    requires q <= |s|
    ensures ColumnOf(s[..q], t) <= ColumnOf(s, t)
    decreases |s| - q
  {
    if q < |s| {
      ColumnOfPrefix(s[..|s| - 1], q, t);
      assert s[..|s| - 1][..q] == s[..q];
    } else {
      assert s[..q] == s;
    }
  }

  /** Row `p` stands at position `PriorCount(s, p)` of its team's group, right after
      the team's rows that precede it. */
  lemma ColumnAt(s: seq<TeamGame>, p: nat)
    requires p < |s|
    ensures PriorCount(s, p) < |ColumnOf(s, s[p].team)|
    ensures ColumnOf(s, s[p].team)[PriorCount(s, p)] == s[p]
    ensures ColumnOf(s, s[p].team)[..PriorCount(s, p)] == ColumnOf(s[..p], s[p].team)
  {
    var t := s[p].team;
    ColumnOfPrefix(s, p + 1, t);
    assert s[..p + 1][..p] == s[..p];
    assert ColumnOf(s[..p + 1], t) == ColumnOf(s[..p], t) + [s[p]];
  }

  function Wons(c: seq<TeamGame>): seq<int> {
    seq(|c|, i requires 0 <= i < |c| => c[i].won)
  }

  function TotalPoints(c: seq<TeamGame>): seq<int> {
    seq(|c|, i requires 0 <= i < |c| => c[i].totalPoints)
  }

  function Sum(xs: seq<int>): int {
    if xs == [] then 0 else xs[0] + Sum(xs[1..])
  }

  /** A numeric column with no missing values. */
  function Lift(xs: seq<int>): seq<Option<int>> {
    seq(|xs|, i requires 0 <= i < |xs| => Some(xs[i]))
  }

  /** `x.shift(1)`: every value moves one row down, and the first becomes missing. */
  function Shift1(xs: seq<Option<int>>): (ys: seq<Option<int>>)
    ensures |ys| == |xs|
  {
    if xs == [] then [] else [None] + xs[..|xs| - 1]
  }

  /** The sum of a window, missing as soon as one of its values is missing. */
  function WindowSum(ws: seq<Option<int>>): Option<int> {
    if ws == [] then Some(0)
    else match (ws[0], WindowSum(ws[1..]))
      case (Some(a), Some(b)) => Some(a + b)
      case _ => None
  }

  /** `.rolling(5).sum()` with pandas' default `min_periods` of 5: the window of row `k`
      is rows `k-4..k`, and its sum is missing unless all five values are present. */
  function Rolling5(ys: seq<Option<int>>): (zs: seq<Option<int>>)
    ensures |zs| == |ys|
  {
    seq(|ys|, k requires 0 <= k < |ys| => if k < 4 then None else WindowSum(ys[k - 4..k + 1]))
  }

  lemma {:induction false} WindowSumLift(xs: seq<int>)
    ensures WindowSum(Lift(xs)) == Some(Sum(xs))
  {
    if xs != [] {
      WindowSumLift(xs[1..]);
      assert Lift(xs)[1..] == Lift(xs[1..]);
    }
  }

  lemma WindowSumMissing(ws: seq<Option<int>>)
    requires ws != [] && ws[0].None?
    ensures WindowSum(ws) == None
  {
  }

  /** `shift(1).rolling(5)` at row `k` is undefined for the first five rows, and is the
      sum over rows `k-5..k-1` otherwise: the current row is never part of its own window. */
  lemma ShiftRolling(xs: seq<int>, k: nat)
    requires k < |xs|
    ensures Rolling5(Shift1(Lift(xs)))[k] == if k < 5 then None else Some(Sum(xs[k - 5..k]))
  {
    var ys := Shift1(Lift(xs));
    if k == 4 {
      assert ys[0..5][0] == ys[0] == None;
      WindowSumMissing(ys[0..5]);
    } else if k >= 5 {
      var w, l := ys[k - 4..k + 1], Lift(xs[k - 5..k]);
      assert w == l by {
        forall j | 0 <= j < 5 ensures w[j] == l[j] {
          assert ys[k - 4 + j] == Lift(xs)[k - 5 + j];
        }
      }
      WindowSumLift(xs[k - 5..k]);
    }
  }

  /** The mean of a defined window sum of five values. */
  function Mean5(o: Option<int>): Option<real> {
    match o
    case Some(s) => Some(s as real / 5.0)
    case None => None
  }

  /** The features of row `p` of the sorted table: the `groupby('TEAM')` transforms read
      at the row's position in its team's group. The row itself is kept, and both
      features are defined exactly when the team has five earlier rows. */
  function FeatureAt(s: seq<TeamGame>, p: nat): (r: FeatureRow)
    requires p < |s|
    ensures r.game == s[p]
    ensures r.winsLast5.Some? <==> PriorCount(s, p) >= 5
    ensures r.avgPtsLast5.Some? <==> PriorCount(s, p) >= 5
  {
    var c := ColumnOf(s, s[p].team);
    var k := PriorCount(s, p);
    ColumnAt(s, p);
    ShiftRolling(Wons(c), k);
    ShiftRolling(TotalPoints(c), k);
    FeatureRow(s[p], Mean5(Rolling5(Shift1(Lift(TotalPoints(c))))[k]), Rolling5(Shift1(Lift(Wons(c))))[k])
  }

  /** The rolling features of every row, in the table's order. */
  function WithRolling(s: seq<TeamGame>): (fs: seq<FeatureRow>)
    ensures |fs| == |s|
    ensures forall p | 0 <= p < |s| :: fs[p].game == s[p]
    ensures forall p | 0 <= p < |s| :: fs[p] == FeatureAt(s, p)
  {
    seq(|s|, p requires 0 <= p < |s| => FeatureAt(s, p))
  }

  /** The previous five games of row `p`'s team, oldest first, when there are five. */
  function PreviousFive(s: seq<TeamGame>, p: nat): seq<TeamGame>
    requires p < |s| && PriorCount(s, p) >= 5
  {
    var prior := ColumnOf(s[..p], s[p].team);
    prior[|prior| - 5..]
  }

  /** WINS_LAST_5 and AVG_PTS_LAST_5 of a team's row are undefined for its first five
      games; otherwise they are the number of wins and the mean TOTAL_POINTS over the
      five rows of the same team just before it. */
  lemma RollingWindow(s: seq<TeamGame>, p: nat)
    requires p < |s|
    ensures PriorCount(s, p) < 5 ==> FeatureAt(s, p).winsLast5.None? && FeatureAt(s, p).avgPtsLast5.None?
    ensures PriorCount(s, p) >= 5 ==>
              && FeatureAt(s, p).winsLast5 == Some(Sum(Wons(PreviousFive(s, p))))
              && FeatureAt(s, p).avgPtsLast5 == Some(Sum(TotalPoints(PreviousFive(s, p))) as real / 5.0)
  {
    var c := ColumnOf(s, s[p].team);
    var k := PriorCount(s, p);
    ColumnAt(s, p);
    assert FeatureAt(s, p).winsLast5 == Rolling5(Shift1(Lift(Wons(c))))[k];
    assert FeatureAt(s, p).avgPtsLast5 == Mean5(Rolling5(Shift1(Lift(TotalPoints(c))))[k]);
    ShiftRolling(Wons(c), k);
    ShiftRolling(TotalPoints(c), k);
    if k >= 5 {
      ColumnWindow(c, k);
      assert c[k - 5..k] == PreviousFive(s, p);
    }
  }

  lemma ColumnWindow(c: seq<TeamGame>, k: nat)
    requires 5 <= k <= |c|
    ensures Wons(c)[k - 5..k] == Wons(c[k - 5..k])
    ensures TotalPoints(c)[k - 5..k] == TotalPoints(c[k - 5..k])
  {
  }

  /** The window never mixes teams and never looks ahead: its rows are rows of the same
      team that come before row `p`, so in a table sorted by team and date they are
      dated no later than row `p`. */
  lemma PreviousFiveOfTeam(s: seq<TeamGame>, p: nat)
    requires p < |s| && PriorCount(s, p) >= 5
    ensures forall x | x in PreviousFive(s, p) :: x.team == s[p].team && x in s[..p]
    ensures SortedByTeamDate(s) ==> forall x | x in PreviousFive(s, p) :: StrLe(x.gameDate, s[p].gameDate)
  {
    var prior := ColumnOf(s[..p], s[p].team);
    var five := PreviousFive(s, p);
    assert forall x | x in five :: x in prior;
    if SortedByTeamDate(s) {
      forall x | x in five ensures StrLe(x.gameDate, s[p].gameDate) {
        var q :| 0 <= q < p && s[..p][q] == x;
        assert s[q] == x && TeamDateLe(s[q], s[p]);
      }
    }
  }

  lemma {:induction false} SumWonsBounds(c: seq<TeamGame>)
    requires forall x | x in c :: 0 <= x.won <= 1
    ensures 0 <= Sum(Wons(c)) <= |c|
  {
    if c != [] {
      SumWonsBounds(c[1..]);
      assert Wons(c)[1..] == Wons(c[1..]);
    }
  }

  /** When defined, WINS_LAST_5 lies between 0 and 5 for rows built by the flattening. */
  lemma WinsLast5Bounds(s: seq<TeamGame>, p: nat)
    requires p < |s|
    requires forall x | x in s :: 0 <= x.won <= 1
    ensures FeatureAt(s, p).winsLast5.Some? ==> 0 <= FeatureAt(s, p).winsLast5.value <= 5
  {
    RollingWindow(s, p);
    if PriorCount(s, p) >= 5 {
      var five := PreviousFive(s, p);
      SumWonsBounds(five);
    }
  }

  /** Every flattened row has WON 0 or 1, so does every sorted row, and so every defined
      WINS_LAST_5 of the output lies between 0 and 5. */
  lemma {:induction false} FlatRowsWon(games: seq<CleanGame>)
    requires AllIndexable(games)
    ensures forall x | x in FlatRows(games) :: 0 <= x.won <= 1
  {
    if games != [] {
      FlatRowsWon(games[..|games| - 1]);
    }
  }

  lemma FeaturesWinsBounds(games: seq<CleanGame>)
    requires AllIndexable(games)
    ensures forall p | 0 <= p < 2 * |games| ::
              WithRolling(SortByTeamDate(FlatRows(games)))[p].winsLast5.Some? ==>
                0 <= WithRolling(SortByTeamDate(FlatRows(games)))[p].winsLast5.value <= 5
  {
    var flat := FlatRows(games);
    var sorted := SortByTeamDate(flat);
    FlatRowsAt(games);
    FlatRowsWon(games);
    assert forall x | x in sorted :: x in multiset(flat);
    forall p | 0 <= p < |sorted| ensures WithRolling(sorted)[p].winsLast5.Some? ==> 0 <= WithRolling(sorted)[p].winsLast5.value <= 5 {
      WinsLast5Bounds(sorted, p);
    }
  }

  // ---------------------------------------------------------------------------
  // The list columns after the CSV round trip

  /** Python's `str()` of a list of strings (none holding a quote or a backslash), which
      is what `to_csv` writes for the TEAMS and TEAM_RESULTS lists: `['BOS', 'NYK']`. */
  function ListRepr(xs: seq<string>): (r: string)
    ensures |r| >= 2 && r[0] == '['
    ensures xs != [] ==> r[1] == '\''
  {
    "[" + ListItems(xs) + "]"
  }

  function ListItems(xs: seq<string>): (r: string)
    ensures xs != [] ==> |r| >= 1 && r[0] == '\''
  {
    if xs == [] then ""
    else if |xs| == 1 then "'" + xs[0] + "'"
    else "'" + xs[0] + "', " + ListItems(xs[1..])
  }

  /** The row the loop builds as written: `read_csv` gives TEAMS and TEAM_RESULTS back as
      the lists' text, so `teams[i]` and `results[i]` are single characters of it. */
  function TeamGameAsWritten(g: CleanGame, i: nat): TeamGame
    requires i < 2
  {
    var teams := ListRepr(g.teams);
    var results := ListRepr(g.teamResults);
    TeamGame(g.gameId, g.gameDate, [teams[i]], [teams[1 - i]],
             if [results[i]] == "W" then 1 else 0, g.totalPoints)
  }

  /** As written, for any game with at least one team and result, the two rows have
      teams "[" and "'" and WON is 0 on both, whatever the game. */
  lemma AsWrittenIndexesCharacters(g: CleanGame)
    requires g.teams != [] && g.teamResults != []
    ensures TeamGameAsWritten(g, 0).team == "[" && TeamGameAsWritten(g, 0).opponent == "'"
    ensures TeamGameAsWritten(g, 1).team == "'" && TeamGameAsWritten(g, 1).opponent == "["
    ensures TeamGameAsWritten(g, 0).won == 0 && TeamGameAsWritten(g, 1).won == 0
  {
  }

  /** A concrete game on which the two readings differ: the typed reading gives BOS as
      the winning team, the as-written one gives team "[" with WON 0. */
  lemma AsWrittenDiffers()
    ensures var g := PreprocessData.CleanGame(22400061, "2024-10-22", 230, ["BOS", "NYK"], ["W", "L"]);
            && TeamGameOf(g, 0) == TeamGame(22400061, "2024-10-22", "BOS", "NYK", 1, 230)
            && TeamGameAsWritten(g, 0) == TeamGame(22400061, "2024-10-22", "[", "'", 0, 230)
  {
    var g := PreprocessData.CleanGame(22400061, "2024-10-22", 230, ["BOS", "NYK"], ["W", "L"]);
    AsWrittenIndexesCharacters(g);
  }

  // ---------------------------------------------------------------------------

  /** `generate_features` on the cleaned games: flattening (which fails on a game with
      fewer than two teams or results), sorting by team and date, then the rolling
      features. With no games the flattened table has no GAME_DATE column to convert. */
  method GenerateFeatures(games: seq<CleanGame>) returns (r: Result<seq<FeatureRow>, FeatureError>)
    ensures games == [] ==> r == Failure(KeyError("GAME_DATE"))
    ensures r.Success? <==> games != [] && AllIndexable(games)
    ensures r.Failure? && games != [] ==>
              && r.error.IndexError? && r.error.gameIndex < |games|
              && !Indexable(games[r.error.gameIndex])
              && AllIndexable(games[..r.error.gameIndex])
    ensures r.Success? ==> |r.value| == 2 * |games|
    ensures r.Success? ==> r.value == WithRolling(SortByTeamDate(FlatRows(games)))
  {
    var flat := FlattenGames(games);
    if flat.Failure? {
      return Failure(flat.error);
    }
    if |flat.value| == 0 {
      return Failure(KeyError("GAME_DATE"));
    }
    FlatRowsAt(games);
    var sorted := SortByTeamDate(flat.value);
    r := Success(WithRolling(sorted));
  }
}
