/** scripts/fetch_data.py: looking a team up by part of its name, and the CSV file name
    a team's games are saved under. The team list is a parameter (it comes from nba_api). */
module FetchData {
  import opened Results
  import opened Text

  /** An entry of the static team list: its `id` and `full_name`. */
  datatype Team = Team(id: int, fullName: string)

  /** The lowercased query occurs in the lowercased full name. */
  predicate Matches(t: Team, name: string) {
    Contains(Lower(t.fullName), Lower(name))
  }

  /** Team `k` is the first team of the list that matches the query. */
  predicate IsFirstMatch(teams: seq<Team>, name: string, k: nat) {
    k < |teams| && Matches(teams[k], name) && forall j | 0 <= j < k :: !Matches(teams[j], name)
  }

  /** `get_team_id`: the id of the first team, in list order, whose full name contains
      the query ignoring case; `None` when no team's name does. */
  function GetTeamId(teams: seq<Team>, name: string): (r: Option<int>)
    ensures r.None? <==> forall k | 0 <= k < |teams| :: !Matches(teams[k], name)
    ensures r.Some? ==> exists k: nat :: IsFirstMatch(teams, name, k) && teams[k].id == r.value
  {
    if teams == [] then None
    else if Matches(teams[0], name) then
      assert IsFirstMatch(teams, name, 0);
      Some(teams[0].id)
    else
      var r := GetTeamId(teams[1..], name);
      if r.Some? then
        var k: nat :| IsFirstMatch(teams[1..], name, k) && teams[1..][k].id == r.value;
        assert IsFirstMatch(teams, name, k + 1);
        r
      else
        r
  }

  /** Conversely, the first matching team is the one whose id is returned. */
  lemma {:induction false} GetTeamIdFirstMatch(teams: seq<Team>, name: string, k: nat)
    requires IsFirstMatch(teams, name, k)
    ensures GetTeamId(teams, name) == Some(teams[k].id)
  {
    if k > 0 {
      assert !Matches(teams[0], name);
      GetTeamIdFirstMatch(teams[1..], name, k - 1);
    }
  }

  /** Queries that differ only in letter case find the same team. */
  lemma {:induction false} GetTeamIdIgnoresCase(teams: seq<Team>, a: string, b: string)
    requires Lower(a) == Lower(b)
    ensures GetTeamId(teams, a) == GetTeamId(teams, b)
  {
    if teams != [] {
      assert Matches(teams[0], a) == Matches(teams[0], b);
      GetTeamIdIgnoresCase(teams[1..], a, b);
    }
  }

  lemma LowerIdempotent(s: string)
    ensures Lower(Lower(s)) == Lower(s)
  {
    assert forall i | 0 <= i < |s| :: Lower(Lower(s))[i] == Lower(s)[i];
  }

  /** In particular a query finds the same team as its lowercase form. */
  lemma GetTeamIdOfLowered(teams: seq<Team>, name: string)
    ensures GetTeamId(teams, Lower(name)) == GetTeamId(teams, name)
  {
    LowerIdempotent(name);
    GetTeamIdIgnoresCase(teams, Lower(name), name);
  }

  /** The empty query is contained in every name, so it finds the first team. */
  lemma GetTeamIdEmptyQuery(teams: seq<Team>)
    requires teams != []
    ensures GetTeamId(teams, "") == Some(teams[0].id)
  {
    assert Lower("") == "";
    ContainsEmpty(Lower(teams[0].fullName));
    GetTeamIdFirstMatch(teams, "", 0);
  }

  // ---------------------------------------------------------------------------

  /** `replace(' ', '_')`: every space becomes an underscore, other characters stay. */
  function ReplaceSpaces(s: string): (r: string)
    ensures |r| == |s|
    ensures forall i | 0 <= i < |s| :: r[i] == (if s[i] == ' ' then '_' else s[i])
  {
    if s == [] then []
    else [if s[0] == ' ' then '_' else s[0]] + ReplaceSpaces(s[1..])
  }

  const RawDir := "data/raw/"
  const GamesSuffix := "_games.csv"

  /** The file name of `save_games_to_csv`: under the raw-data directory, ending in the
      games suffix, one character per character of the team name in between. */
  function GamesFilename(teamName: string): (f: string)
    ensures |f| == |RawDir| + |teamName| + |GamesSuffix|
    ensures RawDir <= f
    ensures f[|f| - |GamesSuffix|..] == GamesSuffix
  {
    RawDir + Lower(ReplaceSpaces(teamName)) + GamesSuffix
  }

  /** Between the raw-data directory and the suffix, the file name has one character
      per character of the team name (an underscore for a space, the lowercase letter
      otherwise); so its name part holds no space and no uppercase letter. */
  lemma GamesFilenameShape(teamName: string)
    ensures var f := GamesFilename(teamName);
            && (forall i | 0 <= i < |teamName| ::
                  f[|RawDir| + i] == if teamName[i] == ' ' then '_' else LowerChar(teamName[i]))
            && (forall i | |RawDir| <= i < |f| - |GamesSuffix| :: f[i] != ' ' && !IsUpper(f[i]))
  {
    var seg := Lower(ReplaceSpaces(teamName));
    var f := GamesFilename(teamName);
    assert f == RawDir + seg + GamesSuffix;
    forall i | 0 <= i < |teamName|
      ensures f[|RawDir| + i] == if teamName[i] == ' ' then '_' else LowerChar(teamName[i])
      ensures f[|RawDir| + i] != ' ' && !IsUpper(f[|RawDir| + i])
    {
      MiddleAt(RawDir, seg, GamesSuffix, i);
    }
    forall i | |RawDir| <= i < |f| - |GamesSuffix| ensures f[i] != ' ' && !IsUpper(f[i]) {
      assert f[i] == f[|RawDir| + (i - |RawDir|)];
    }
  }

  lemma MiddleAt(a: string, m: string, b: string, i: nat)
    requires i < |m|
    ensures (a + m + b)[|a| + i] == m[i]
  {
  }

  /** Team names that differ only in letter case are saved to the same file. */
  lemma GamesFilenameIgnoresCase(a: string, b: string)
    requires Lower(a) == Lower(b)
    ensures GamesFilename(a) == GamesFilename(b)
  {
    var sa, sb := Lower(ReplaceSpaces(a)), Lower(ReplaceSpaces(b));
    assert |a| == |Lower(a)| == |b|;
    forall i | 0 <= i < |a| ensures sa[i] == sb[i] {
      assert Lower(a)[i] == Lower(b)[i];
    }
    assert sa == sb;
  }
}
