/** scripts/preprocess_data.py: one row per game, grouping the raw team rows by
    GAME_ID, summing their points and listing their teams and results. */
module PreprocessData {
  import Dedup

  /** The columns the script selects from the raw-games table, as read back from CSV
      (GAME_ID, TEAM_ID and PTS are numbers there). */
  datatype RawGameRow = RawGameRow(
    gameId: int,
    gameDate: string,
    teamId: int,
    teamAbbreviation: string,
    pts: int,
    matchup: string,
    wl: string)

  /** One output row: GAME_ID, GAME_DATE, TOTAL_POINTS, TEAMS, TEAM_RESULTS. */
  datatype CleanGame = CleanGame(
    gameId: int,
    gameDate: string,
    totalPoints: int,
    teams: seq<string>,
    teamResults: seq<string>)

  function GameIdOf(r: RawGameRow): int { r.gameId }

  function GameIds(rows: seq<RawGameRow>): set<int> {
    Dedup.KeySet(rows, GameIdOf)
  }

  /** The rows of game `g`, in input order. */
  function RowsOf(rows: seq<RawGameRow>, g: int): (group: seq<RawGameRow>)
    ensures |group| <= |rows|
    ensures forall r :: r in group <==> r in rows && r.gameId == g
  {
    if rows == [] then []
    else (if rows[0].gameId == g then [rows[0]] else []) + RowsOf(rows[1..], g)
  }

  /** The positions of `rows[from..]` that belong to game `g`, in increasing order. */
  ghost function GamePositions(rows: seq<RawGameRow>, g: int, from: nat): seq<int>
    requires from <= |rows|
    decreases |rows| - from
  {
    if from == |rows| then []
    else (if rows[from].gameId == g then [from] else []) + GamePositions(rows, g, from + 1)
  }

  lemma {:induction false} RowsOfPositionsFrom(rows: seq<RawGameRow>, g: int, from: nat)
    requires from <= |rows|
    ensures Dedup.Picks(rows, RowsOf(rows[from..], g), GamePositions(rows, g, from))
    ensures forall i | 0 <= i < |rows| :: i in GamePositions(rows, g, from) <==> from <= i && rows[i].gameId == g
    decreases |rows| - from
  {
    if from < |rows| {
      var r, idx := RowsOf(rows[from + 1..], g), GamePositions(rows, g, from + 1);
      RowsOfPositionsFrom(rows, g, from + 1);
      assert rows[from..][1..] == rows[from + 1..];
      assert RowsOf(rows[from..], g) == (if rows[from].gameId == g then [rows[from]] else []) + r;
      if rows[from].gameId == g {
        forall p | 0 <= p < |idx| ensures from < idx[p] {
          assert idx[p] in idx;
        }
        Dedup.PicksCons(rows, r, idx, from);
        assert GamePositions(rows, g, from) == [from] + idx;
      } else {
        assert RowsOf(rows[from..], g) == r && GamePositions(rows, g, from) == idx;
      }
    }
  }

  /** The rows of game `g` are exactly the input rows with that GAME_ID, taken at
      increasing positions: the group keeps the input order and has one entry per row
      of the game. */
  lemma RowsOfPositions(rows: seq<RawGameRow>, g: int)
    ensures exists idx :: Dedup.Picks(rows, RowsOf(rows, g), idx)
                          && forall i | 0 <= i < |rows| :: i in idx <==> rows[i].gameId == g
  {
    RowsOfPositionsFrom(rows, g, 0);
    assert rows[0..] == rows;
  }

  /** The rows of every game but `g`, in input order. */
  function Without(rows: seq<RawGameRow>, g: int): (rest: seq<RawGameRow>)
    ensures |rest| <= |rows|
    ensures g in GameIds(rows) ==> |rest| < |rows|
    ensures GameIds(rest) == GameIds(rows) - {g}
  {
    if rows == [] then []
    else
      var tail := Without(rows[1..], g);
      assert rows == [rows[0]] + rows[1..];
      Dedup.KeySetCons(rows[0], rows[1..], GameIdOf);
      if rows[0].gameId == g then tail
      else
        Dedup.KeySetCons(rows[0], tail, GameIdOf);
        [rows[0]] + tail
  }

  /** The smallest GAME_ID present. */
  function MinId(rows: seq<RawGameRow>): (m: int)
    requires rows != []
    ensures m in GameIds(rows)
    ensures forall i | 0 <= i < |rows| :: m <= rows[i].gameId
  {
    if |rows| == 1 then rows[0].gameId
    else
      var m := MinId(rows[1..]);
      assert forall i | 1 <= i < |rows| :: rows[i] == rows[1..][i - 1];
      assert rows == [rows[0]] + rows[1..];
      Dedup.KeySetCons(rows[0], rows[1..], GameIdOf);
      if rows[0].gameId <= m then rows[0].gameId else m
  }

  function SumPts(rows: seq<RawGameRow>): int {
    if rows == [] then 0 else rows[0].pts + SumPts(rows[1..])
  }

  function Abbreviations(rows: seq<RawGameRow>): seq<string> {
    seq(|rows|, i requires 0 <= i < |rows| => rows[i].teamAbbreviation)
  }

  function Results(rows: seq<RawGameRow>): seq<string> {
    seq(|rows|, i requires 0 <= i < |rows| => rows[i].wl)
  }

  /** Row `i` is the first row of game `g`. */
  predicate IsFirstOfGame(rows: seq<RawGameRow>, g: int, i: int) {
    0 <= i < |rows| && rows[i].gameId == g && forall j | 0 <= j < i :: rows[j].gameId != g
  }

  /** A game present in the input has rows, and the first of them is its first row. */
  lemma {:induction false} RowsOfFirst(rows: seq<RawGameRow>, g: int)
    requires g in GameIds(rows)
    ensures RowsOf(rows, g) != []
    ensures exists i :: IsFirstOfGame(rows, g, i) && RowsOf(rows, g)[0] == rows[i]
  {
    assert rows == [rows[0]] + rows[1..];
    if rows[0].gameId == g {
      assert IsFirstOfGame(rows, g, 0);
    } else {
      Dedup.KeySetCons(rows[0], rows[1..], GameIdOf);
      RowsOfFirst(rows[1..], g);
      var i :| IsFirstOfGame(rows[1..], g, i) && RowsOf(rows[1..], g)[0] == rows[1..][i];
      assert IsFirstOfGame(rows, g, i + 1);
    }
  }

  /** The aggregation of one group: `'first'` date, `'sum'` of points, `list` of
      abbreviations and of results. A present game has at least one team; the k-th team
      and the k-th result come from the same row of that game, and the date is the one
      of the game's first row. */
  function GroupOf(rows: seq<RawGameRow>, g: int): (r: CleanGame)
    requires g in GameIds(rows)
    ensures r.gameId == g
    ensures 1 <= |r.teams| == |r.teamResults| == |RowsOf(rows, g)|
    ensures forall k | 0 <= k < |r.teams| ::
              exists x | x in rows && x.gameId == g :: r.teams[k] == x.teamAbbreviation && r.teamResults[k] == x.wl
    ensures exists i :: IsFirstOfGame(rows, g, i) && r.gameDate == rows[i].gameDate
  {
    var group := RowsOf(rows, g);
    RowsOfFirst(rows, g);
    assert forall k | 0 <= k < |group| :: group[k] in rows && group[k].gameId == g by {
      forall k | 0 <= k < |group| ensures group[k] in rows && group[k].gameId == g {
        assert group[k] in group;
      }
    }
    CleanGame(g, group[0].gameDate, SumPts(group), Abbreviations(group), Results(group))
  }

  predicate AscendingIds(games: seq<CleanGame>) {
    forall i, j | 0 <= i < j < |games| :: games[i].gameId < games[j].gameId
  }

  function IdsOf(games: seq<CleanGame>): set<int> {
    set i | 0 <= i < |games| :: games[i].gameId
  }

  /** Every game of `games` is the aggregation of its own rows of `rows`. */
  predicate GroupsOf(rows: seq<RawGameRow>, games: seq<CleanGame>) {
    forall i | 0 <= i < |games| :: games[i].gameId in GameIds(rows) && games[i] == GroupOf(rows, games[i].gameId)
  }

  /** `df.groupby('GAME_ID').agg(...)`: one game per distinct GAME_ID, in ascending
      GAME_ID order, each the aggregation of its own rows. */
  function Preprocess(rows: seq<RawGameRow>): (games: seq<CleanGame>)
    ensures AscendingIds(games)
    ensures IdsOf(games) == GameIds(rows)
    ensures GroupsOf(rows, games)
    decreases |rows|
  {
    if rows == [] then []
    else
      var m := MinId(rows);
      var tail := Preprocess(Without(rows, m));
      TailAboveMin(rows, m, tail);
      AscendingCons(GroupOf(rows, m), tail);
      IdsCons(GroupOf(rows, m), tail);
      TailGroups(rows, m, tail);
      GroupsCons(rows, GroupOf(rows, m), tail);
      [GroupOf(rows, m)] + tail
  }

  lemma AscendingCons(x: CleanGame, tail: seq<CleanGame>)
    requires AscendingIds(tail)
    requires forall i | 0 <= i < |tail| :: x.gameId < tail[i].gameId
    ensures AscendingIds([x] + tail)
  {
    var games := [x] + tail;
    forall i, j | 0 <= i < j < |games| ensures games[i].gameId < games[j].gameId {
      assert games[j] == tail[j - 1];
      if i > 0 { assert games[i] == tail[i - 1]; }
    }
  }

  lemma IdsCons(x: CleanGame, tail: seq<CleanGame>)
    ensures IdsOf([x] + tail) == {x.gameId} + IdsOf(tail)
  {
    var games := [x] + tail;
    forall k | k in IdsOf(games) ensures k in {x.gameId} + IdsOf(tail) {
      var i :| 0 <= i < |games| && games[i].gameId == k;
      if i > 0 { assert games[i] == tail[i - 1]; }
    }
    forall k | k in IdsOf(tail) ensures k in IdsOf(games) {
      var i :| 0 <= i < |tail| && tail[i].gameId == k;
      assert games[i + 1] == tail[i];
    }
    assert games[0] == x;
  }

  lemma GroupsCons(rows: seq<RawGameRow>, x: CleanGame, tail: seq<CleanGame>)
    requires x.gameId in GameIds(rows) && x == GroupOf(rows, x.gameId)
    requires GroupsOf(rows, tail)
    ensures GroupsOf(rows, [x] + tail)
  {
    var games := [x] + tail;
    assert forall i | 0 < i < |games| :: games[i] == tail[i - 1];
  }

  lemma TailAboveMin(rows: seq<RawGameRow>, m: int, tail: seq<CleanGame>)
    requires rows != [] && m == MinId(rows)
    requires IdsOf(tail) == GameIds(Without(rows, m))
    ensures forall i | 0 <= i < |tail| :: m < tail[i].gameId
  {
    forall i | 0 <= i < |tail| ensures m < tail[i].gameId {
      assert tail[i].gameId in IdsOf(tail);
      var k :| 0 <= k < |rows| && rows[k].gameId == tail[i].gameId;
    }
  }

  lemma TailGroups(rows: seq<RawGameRow>, m: int, tail: seq<CleanGame>)
    requires rows != [] && m == MinId(rows)
    requires GroupsOf(Without(rows, m), tail)
    ensures GroupsOf(rows, tail)
  {
    forall i | 0 <= i < |tail|
      ensures tail[i].gameId in GameIds(rows) && tail[i] == GroupOf(rows, tail[i].gameId)
    {
      RowsOfWithout(rows, m, tail[i].gameId);
    }
  }

  /** Removing the rows of one game leaves the rows of every other game as they were. */
  lemma {:induction false} RowsOfWithout(rows: seq<RawGameRow>, m: int, g: int)
    requires g != m
    ensures RowsOf(Without(rows, m), g) == RowsOf(rows, g)
  {
    if rows != [] {
      RowsOfWithout(rows[1..], m, g);
      if rows[0].gameId != m {
        assert ([rows[0]] + Without(rows[1..], m))[1..] == Without(rows[1..], m);
      }
    }
  }

  /** Splitting off the rows of one game splits the points. */
  lemma {:induction false} SumPtsSplit(rows: seq<RawGameRow>, m: int)
    ensures SumPts(rows) == SumPts(RowsOf(rows, m)) + SumPts(Without(rows, m))
  {
    if rows != [] {
      SumPtsSplit(rows[1..], m);
      if rows[0].gameId == m {
        assert RowsOf(rows, m) == [rows[0]] + RowsOf(rows[1..], m);
        assert Without(rows, m) == Without(rows[1..], m);
      } else {
        assert RowsOf(rows, m) == RowsOf(rows[1..], m);
        assert Without(rows, m) == [rows[0]] + Without(rows[1..], m);
      }
    }
  }

  lemma {:induction false} CountSplit(rows: seq<RawGameRow>, m: int)
    ensures |rows| == |RowsOf(rows, m)| + |Without(rows, m)|
  {
    if rows != [] {
      CountSplit(rows[1..], m);
    }
  }

  function SumTotals(games: seq<CleanGame>): int {
    if games == [] then 0 else games[0].totalPoints + SumTotals(games[1..])
  }

  function SumTeams(games: seq<CleanGame>): int {
    if games == [] then 0 else |games[0].teams| + SumTeams(games[1..])
  }

  /** No points are lost or counted twice: the TOTAL_POINTS of all games add up to the
      PTS of all input rows, and every input row contributes exactly one TEAMS entry. */
  lemma {:induction false} PreprocessConserves(rows: seq<RawGameRow>)
    ensures SumTotals(Preprocess(rows)) == SumPts(rows)
    ensures SumTeams(Preprocess(rows)) == |rows|
    decreases |rows|
  {
    if rows != [] {
      var m := MinId(rows);
      var games := Preprocess(rows);
      PreprocessConserves(Without(rows, m));
      SumPtsSplit(rows, m);
      CountSplit(rows, m);
      assert games[1..] == Preprocess(Without(rows, m));
    }
  }

  /** Each game's TEAMS and TEAM_RESULTS list, in input order, the abbreviation and the
      WL of each input row of that game (so both are as long as the game has rows, with
      no check that this is two), TOTAL_POINTS sums their PTS, and GAME_DATE is the
      date of the first input row of the game. */
  lemma GameShape(rows: seq<RawGameRow>, g: int)
    requires g in GameIds(rows)
    ensures var c := GroupOf(rows, g);
            var group := RowsOf(rows, g);
            && |c.teams| == |group| && |c.teamResults| == |group|
            && (forall k | 0 <= k < |group| ::
                  c.teams[k] == group[k].teamAbbreviation && c.teamResults[k] == group[k].wl)
            && c.totalPoints == SumPts(group)
    ensures forall i | 0 <= i < |rows| && rows[i].gameId == g && (forall j | 0 <= j < i :: rows[j].gameId != g) ::
              GroupOf(rows, g).gameDate == rows[i].gameDate
  {
    forall i | 0 <= i < |rows| && rows[i].gameId == g && (forall j | 0 <= j < i :: rows[j].gameId != g)
      ensures RowsOf(rows, g)[0] == rows[i]
    {
      FirstOfGroup(rows, g, i);
    }
  }

  lemma {:induction false} FirstOfGroup(rows: seq<RawGameRow>, g: int, i: int)
    requires 0 <= i < |rows| && rows[i].gameId == g
    requires forall j | 0 <= j < i :: rows[j].gameId != g
    ensures RowsOf(rows, g) != [] && RowsOf(rows, g)[0] == rows[i]
  {
    if i > 0 {
      FirstOfGroup(rows[1..], g, i - 1);
    }
  }

  /** GAME_KEY, the smallest TEAM_ID among a game's rows. The script computes it but it
      is not among the output columns. */
  function GameKey(rows: seq<RawGameRow>, g: int): (k: int)
    requires g in GameIds(rows)
    ensures exists r | r in RowsOf(rows, g) :: r.teamId == k
    ensures forall r | r in RowsOf(rows, g) :: k <= r.teamId
  {
    var group := RowsOf(rows, g);
    assert group != [] by {
      var i :| 0 <= i < |rows| && rows[i].gameId == g;
      assert rows[i] in group;
    }
    MinTeamId(group)
  }

  function MinTeamId(group: seq<RawGameRow>): (k: int)
    requires group != []
    ensures exists r | r in group :: r.teamId == k
    ensures forall r | r in group :: k <= r.teamId
  {
    if |group| == 1 then group[0].teamId
    else
      var k := MinTeamId(group[1..]);
      assert forall r | r in group[1..] :: r in group;
      assert forall r | r in group :: r == group[0] || r in group[1..];
      if group[0].teamId <= k then group[0].teamId else k
  }
}
