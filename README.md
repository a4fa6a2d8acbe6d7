# NBA-Model data pipeline, modelled in Dafny

NBA-Model is a set of Python scripts. They collect NBA game and injury data from
ESPN and nba_api, keep it in CSV files, and turn it into features for an
over/under classifier. This project models the record and table transformations
of those scripts, with the network, the files and pandas replaced by sequences of
records. It then proves what each transformation guarantees.

| module | script | what it models |
|---|---|---|
| `FetchInjuries` | `scripts/fetch_injuries.py` | one row per injury record with defaults for absent keys; the composite injury type; the merge into the stored CSV with keep-last deduplication |
| `UpdateWithEspn` | `scripts/update_with_espn.py` | one box-score row per team of every two-team game with statistics; the statistics columns and their defaults; the append to the raw CSV with keep-first deduplication |
| `PreprocessData` | `scripts/preprocess_data.py` | grouping the raw team rows by GAME_ID into one game each |
| `Features` | `scripts/features.py` | two team rows per game, the sort by team and date, and the shifted five-game rolling windows per team |
| `FetchData` | `scripts/fetch_data.py` | case-insensitive team lookup and the games file name |
| `EspnApi` | `scripts/espn_api.py` | one scoreboard row per event, from the first competition's home and away competitors |
| `Dedup` | (shared) | pandas `drop_duplicates` with `keep='last'` and `keep='first'` |
| `Text` | (shared) | ASCII `lower()`, `strip()`, substring search and string order |
| `Results` | (shared) | `Option` and `Result` |

Modelling conventions:
- A JSON key read by subscript (`x['k']`) is a required field. A key read with
  `.get` is an `Option`, and `None` stands for an absent key.
- A parsed response that was never obtained, because the request failed, is `None`.
- A CSV file that does not exist is `None`.
- An exception the code raises on malformed input is a `Failure`:
  `IndexError` from `[0]` or `[i]`, `StopIteration` from `next(...)`, and `KeyError`
  for a column missing from a table.
- The clock reading (FETCHED_AT) is a parameter.

## Model

| member | source | states |
|---|---|---|
| `FetchInjuries.JoinSpace` | scripts/fetch_injuries.py:89 | `" ".join` of one part is that part; of two parts, the parts separated by one space |
| `FetchInjuries.InjuryType` | scripts/fetch_injuries.py:84-93 | INJURY_TYPE is the raw type exactly when the joined extras are blank |
| `FetchInjuries.InjuryTypeNoExtras` | scripts/fetch_injuries.py:84-93 | with neither a truthy detail nor a truthy side, INJURY_TYPE is the raw type |
| `FetchInjuries.InjuryTypeBlank` | scripts/fetch_injuries.py:89-93 | when the joined extras are only whitespace, INJURY_TYPE is the raw type |
| `FetchInjuries.InjuryTypeShape` | scripts/fetch_injuries.py:89-91 | otherwise INJURY_TYPE is the raw type, a space, then a non-empty suffix that neither starts nor ends with whitespace: a slice of the joined extras with only whitespace cut from either end |
| `FetchInjuries.InjuryTypeOfTrimmedParts` | scripts/fetch_injuries.py:84-91 | for detail and side without surrounding whitespace, INJURY_TYPE is "type detail side", "type detail" or "type side" according to which is present and non-empty |
| `FetchInjuries.Headline` | scripts/fetch_injuries.py:96-102 | DETAILS is the first note item's headline ("" if it has none), and "" when there are no notes or no items |
| `FetchInjuries.NormalizeInjury` | scripts/fetch_injuries.py:77-112 | every row carries the clock reading as FETCHED_AT; a record without "details" has INJURY_TYPE and START_DATE "Unknown" |
| `FetchInjuries.NormalizeInjuryDefaults` | scripts/fetch_injuries.py:63-113 | absent team, player, status, start date and raw type give "Unknown", an absent position gives "N/A", present values are copied, and FETCHED_AT is the clock reading |
| `FetchInjuries.FetchInjuryReport` | scripts/fetch_injuries.py:51-113 | an absent or empty injuries list gives no rows; otherwise exactly one normalised row per record, in record order |
| `FetchInjuries.SaveInjuriesToCsv` | scripts/fetch_injuries.py:123-141 | an empty batch leaves the file as it was; with no file the batch is written unchanged; otherwise the file is stored-then-new rows deduplicated keep-last on (TEAM, PLAYER, INJURY_STATUS, START_DATE), with distinct keys and every key of the batch present |
| `Dedup.KeepLast` | scripts/fetch_injuries.py:133-137 | keep-last is never longer than its input and empties no non-empty table |
| `Dedup.KeepLastSpec` | scripts/fetch_injuries.py:133-137 | keep-last leaves distinct keys and the same key set, keeps every row that is the last of its key, keeps nothing else, and lists exactly the rows at the last position of each key, in increasing position order (so equal rows keep their places too) |
| `Dedup.TakesLastOfEachKeyUnique` | scripts/fetch_injuries.py:133-137 | that order clause determines the table: two tables that both meet it are equal |
| `Dedup.KeepLastIdempotent` | scripts/fetch_injuries.py:133-137 | deduplicating an already deduplicated table changes nothing |
| `Dedup.KeepLastMergeBatchWins` | scripts/fetch_injuries.py:132-137 | after the merge, a row whose key occurs in the new batch is the batch's last row for that key: new records override stored ones |
| `Dedup.KeepLastMergeBatchSurvives` | scripts/fetch_injuries.py:132-137 | the last row of each key within the new batch is in the merged file |
| `Dedup.KeepLastMergeStoredSurvives` | scripts/fetch_injuries.py:132-137 | a stored row that is the last of its key among the stored rows, with a key the batch does not contain, stays in the merged file |
| `Dedup.DropDuplicatesKeepLast` | scripts/fetch_injuries.py:133-137 | the loop over the rows from the back, with a set of keys already seen, computes exactly keep-last |
| `Dedup.KeepFirst` | scripts/update_with_espn.py:91 | keep-first is never longer than its input and empties no non-empty table |
| `Dedup.KeepFirstSpec` | scripts/update_with_espn.py:91 | keep-first leaves distinct keys and the same key set, keeps every row that is the first of its key, keeps nothing else, and lists exactly the rows at the first position of each key, in increasing position order (so equal rows keep their places too) |
| `Dedup.TakesFirstOfEachKeyUnique` | scripts/update_with_espn.py:91 | that order clause determines the table: two tables that both meet it are equal |
| `Dedup.RepeatedRowsKeepFirst` | scripts/update_with_espn.py:87-91 | on the rows 1, 2, 1 keep-first gives 1, 2, and the swapped table 2, 1 fails the order clause |
| `Dedup.RepeatedRowsKeepLast` | scripts/fetch_injuries.py:133-137 | on the rows 1, 2, 1 keep-last gives 2, 1, and the swapped table 1, 2 fails the order clause |
| `Dedup.KeepFirstMergeStoredSurvives` | scripts/update_with_espn.py:87-91 | the first row of each key in the stored table stays in the appended file |
| `Dedup.KeepFirstMergeStoredWins` | scripts/update_with_espn.py:87-91 | a row of the appended file whose key was already stored is the stored row: new rows never replace stored ones |
| `Dedup.KeepFirstMergeBatchSurvives` | scripts/update_with_espn.py:87-91 | a new row with a key not stored yet, first of its key in the batch, is appended |
| `Dedup.DropDuplicatesKeepFirst` | scripts/update_with_espn.py:91 | the forward loop with a set of keys already seen computes exactly keep-first |
| `UpdateWithEspn.StatMap` | scripts/update_with_espn.py:42 | the stat map's keys are exactly the stat names, and a repeated name maps to its last value |
| `UpdateWithEspn.GameDate` | scripts/update_with_espn.py:25 | GAME_DATE is the prefix of the event date of length min(10, its length) |
| `UpdateWithEspn.BoxRowOf` | scripts/update_with_espn.py:42-74 | a row has exactly the 20 statistic columns, the event's GAME_ID, a GAME_DATE that is a prefix of the event date, and WL "W" exactly for a winner |
| `UpdateWithEspn.BoxRowStats` | scripts/update_with_espn.py:54-73 | every one of the 20 statistic columns is present, holding the last value of its ESPN stat name or its default when the name is absent |
| `UpdateWithEspn.StatSourcesTable` | scripts/update_with_espn.py:54-73 | MIN defaults to "240" and every other statistic to "0"; TOV reads TO, PLUS_MINUS reads +/-, FG3M/FG3A read 3PM/3PA, and the percentages read FG%, 3P%, FT% |
| `UpdateWithEspn.BoxRowFixedFields` | scripts/update_with_espn.py:45-53 | SEASON_ID is "2024-25"; TEAM_ID, TEAM_ABBREVIATION and TEAM_NAME are the team's id, abbreviation and display name, or "" when absent; GAME_ID is the event id; GAME_DATE is the date's first ten characters; MATCHUP is the display name (or "") followed by " vs ???"; and WL is "W" exactly when the team is the winner, "L" otherwise |
| `UpdateWithEspn.GameRows` | scripts/update_with_espn.py:32-35 | a game contributes at most two rows, and none unless its box score lists exactly two teams |
| `UpdateWithEspn.GameRowsOfTwoTeams` | scripts/update_with_espn.py:37-40 | a two-team game yields one row per team with non-empty statistics, in team order |
| `UpdateWithEspn.AllRows` | scripts/update_with_espn.py:23-76 | the scraped games give at most two rows each |
| `UpdateWithEspn.AllRowsBelong` | scripts/update_with_espn.py:23-53 | every row carries the season, a W/L result, and the id and date of one of the scraped games |
| `UpdateWithEspn.FetchRecentBoxScores` | scripts/update_with_espn.py:22-76 | the nested loops with their `continue` skips produce exactly the rows of the games in order |
| `UpdateWithEspn.AppendToRawCsv` | scripts/update_with_espn.py:80-91 | an empty batch writes nothing; otherwise stored-then-new rows deduplicated keep-first on (GAME_ID, TEAM_ID), also when there is no file, with distinct keys and no key lost |
| `PreprocessData.RowsOfPositions` | scripts/preprocess_data.py:20 | the group of a GAME_ID is the input rows at exactly the positions with that GAME_ID, in increasing position order |
| `PreprocessData.GroupOf` | scripts/preprocess_data.py:20-24 | a game's aggregate keeps its GAME_ID, lists at least one team and as many results as teams (one per row of the game), pairs the k-th team with the k-th result of the same row of that game, and takes GAME_DATE from the game's first row |
| `PreprocessData.Preprocess` | scripts/preprocess_data.py:20-25 | one game per distinct GAME_ID, in ascending GAME_ID order, each the aggregation of exactly its own rows |
| `PreprocessData.GameShape` | scripts/preprocess_data.py:21-24 | TEAMS and TEAM_RESULTS list each row's abbreviation and WL in input order, so they are as long as the game's row count, which is never checked to be two; TOTAL_POINTS is the sum of PTS; GAME_DATE is the date of the game's first row |
| `PreprocessData.PreprocessConserves` | scripts/preprocess_data.py:22-23 | the TOTAL_POINTS of all games add up to the PTS of all rows, and each input row gives exactly one TEAMS entry |
| `PreprocessData.GameKey` | scripts/preprocess_data.py:17 | GAME_KEY is a TEAM_ID of the game's rows and no larger than any of them |
| `Features.TeamGameOf` | scripts/features.py:19-22 | side i's row has TEAM teams[i] and OPPONENT teams[1-i], and WON is 0 or 1, with 1 exactly for a "W" result |
| `Features.TeamGamePair` | scripts/features.py:18-29 | the two rows of a game mirror each other (TEAM of one is OPPONENT of the other), share GAME_ID, GAME_DATE and TOTAL_POINTS, and WON is 1 exactly when that side's result is "W" |
| `Features.FlatRows` | scripts/features.py:13-30 | the flattened table has two rows per game |
| `Features.FlatRowsAt` | scripts/features.py:13-30 | game k yields rows 2k and 2k+1, for its first and second team |
| `Features.FlattenGames` | scripts/features.py:13-30 | the loop succeeds exactly when every game has two teams and two results, then gives the flattened rows; otherwise it fails at the first game that lacks them |
| `Features.TeamDateTotal` | scripts/features.py:35 | any two rows are ordered one way or the other by (TEAM, GAME_DATE) |
| `Features.TeamDateTransitive` | scripts/features.py:35 | the (TEAM, GAME_DATE) order is transitive |
| `Features.SortByTeamDate` | scripts/features.py:35 | the sorted table is a permutation of the rows, ordered by team and then date |
| `Features.ColumnAt` | scripts/features.py:39-40 | within its team's group, a row stands right after that team's earlier rows |
| `Features.ShiftRolling` | scripts/features.py:39-40 | `shift(1).rolling(5)` at group position k is missing for k < 5 and otherwise sums positions k-5 to k-1, never the row itself |
| `Features.FeatureAt` | scripts/features.py:39-40 | a row's features keep the row, and WINS_LAST_5 and AVG_PTS_LAST_5 are both defined exactly when the team has at least five earlier rows |
| `Features.WithRolling` | scripts/features.py:39-40 | the rolling features keep the table's rows, one output row per input row in the same order |
| `Features.RollingWindow` | scripts/features.py:39-40 | WINS_LAST_5 and AVG_PTS_LAST_5 are missing for a team's first five games, and otherwise are the wins and the mean TOTAL_POINTS of that team's previous five rows |
| `Features.PreviousFiveOfTeam` | scripts/features.py:34-40 | those five rows are the same team's and come before the row, so in the sorted table they are dated no later than it |
| `Features.WinsLast5Bounds` | scripts/features.py:40 | a defined WINS_LAST_5 lies between 0 and 5 when WON is 0 or 1 |
| `Features.FeaturesWinsBounds` | scripts/features.py:19-40 | every defined WINS_LAST_5 of the generated table lies between 0 and 5 |
| `Features.GenerateFeatures` | scripts/features.py:7-40 | no games fail with a KeyError on GAME_DATE; otherwise it succeeds exactly when every game has two teams and results, giving two rows per game: the rolling features of the rows sorted by team and date; a failure names the first game without them |
| `Features.ListRepr` | scripts/preprocess_data.py:35 | the text a list column is written as starts with "['" for any non-empty list |
| `Features.AsWrittenIndexesCharacters` | scripts/features.py:15-22 | as written, after the CSV round trip, the two rows of every game have TEAM "[" and "'" and WON 0 |
| `Features.AsWrittenDiffers` | scripts/features.py:15-22 | on a concrete game the typed reading and the as-written reading give different rows |
| `FetchData.GetTeamId` | scripts/fetch_data.py:11-16 | None exactly when no team's lowercased full name contains the lowercased query; otherwise the id of a team that is the first such match |
| `FetchData.GetTeamIdFirstMatch` | scripts/fetch_data.py:13-15 | the first matching team in list order is the one whose id is returned |
| `FetchData.GetTeamIdIgnoresCase` | scripts/fetch_data.py:14 | queries that are equal after lowercasing find the same team |
| `FetchData.GetTeamIdOfLowered` | scripts/fetch_data.py:14 | a query and its lowercase form find the same team |
| `FetchData.GetTeamIdEmptyQuery` | scripts/fetch_data.py:14 | the empty query finds the first team of a non-empty list |
| `FetchData.ReplaceSpaces` | scripts/fetch_data.py:26 | each space becomes '_' and every other character is kept, position by position |
| `FetchData.GamesFilename` | scripts/fetch_data.py:26 | the file name starts with "data/raw/", ends with "_games.csv", and has one character per character of the team name in between |
| `FetchData.GamesFilenameShape` | scripts/fetch_data.py:26 | each of those characters is '_' for a space and the lowercased name character otherwise, so the name part holds no space and no uppercase letter |
| `FetchData.GamesFilenameIgnoresCase` | scripts/fetch_data.py:26 | names equal after lowercasing get the same file name |
| `EspnApi.FirstWithSide` | scripts/espn_api.py:26-27 | the `next(...)` search finds nothing exactly when no competitor is on that side, and otherwise the first one that is |
| `EspnApi.FirstWithSideIsFirst` | scripts/espn_api.py:26-27 | the first competitor on a side is the one found |
| `EspnApi.EventRow` | scripts/espn_api.py:23-36 | an event without competitions fails; a row keeps the event's id as game_id and the first competition's status |
| `EspnApi.EventRowOf` | scripts/espn_api.py:23-36 | the row takes the first competition's status and its first home and first away competitors' display names and scores (a missing score stays missing) |
| `EspnApi.EventRowErrors` | scripts/espn_api.py:23-27 | an event fails exactly when it has no competition, no home competitor or no away competitor, and the check that fails first is reported |
| `EspnApi.FetchEspnTodayGames` | scripts/espn_api.py:16-36 | no events give an empty table; the call succeeds exactly when every event can be read, giving one row per event in order; otherwise it reports the first failing event and its reason |
| `Text.Lower` | scripts/fetch_data.py:14 | `lower()` keeps the length and lowercases each character in place |
| `Text.Strip` | scripts/fetch_injuries.py:89 | `strip()` is a slice of the text with only whitespace before and after it; it is empty exactly for all-whitespace text, and otherwise neither starts nor ends with whitespace |
| `Text.StripUnchanged` | scripts/fetch_injuries.py:89 | text that neither starts nor ends with whitespace is its own strip |
| `Text.ContainsEmpty` | scripts/fetch_data.py:14 | the empty string is contained in every string |

## Findings

| source | as written | input that shows it | evidently intended | confidence | as-written member | corrected member |
|---|---|---|---|---|---|---|
| scripts/features.py:15-22 | TEAMS and TEAM_RESULTS are saved as Python lists by scripts/preprocess_data.py:23-24,35 and read back by `read_csv` as their text, so `teams[i]` and `results[i]` index characters | a game with TEAMS `['BOS', 'NYK']` and TEAM_RESULTS `['W', 'L']` gives rows with TEAM "[" and "'", OPPONENT "'" and "[", and WON 0 on both | index the lists themselves: TEAM is `teams[i]`, OPPONENT `teams[1-i]`, WON 1 for a "W" | high, not executed | `Features.AsWrittenIndexesCharacters` | `Features.TeamGamePair` |

`Features.AsWrittenDiffers` shows the two readings side by side on that game. The rest
of the model uses the typed lists (`Features.FlatRows`).

## Left out

- HTTP requests, status codes, headers, `raise_for_status` and debug printing: each parsed response is an input value, and a failed request is `None`.
- `read_csv`, `to_csv`, `os.path.exists` and `os.makedirs`: a stored file is an `Option` of its rows.
- The clock. FETCHED_AT is one parameter shared by all rows of a call, where the script reads the clock once per record.
- The `timedelta` day loop of `fetch_recent_box_scores`: the model takes the games of all days, already fetched, as one sequence.
- nba_api calls (`teams.get_teams`, `LeagueGameFinder`), `fetch_and_save_all_teams`, and `time.sleep`: the team list is a parameter of `GetTeamId`.
- scripts/train_model.py and scripts/predict_games.py (sklearn training, prediction, joblib) are not part of this model.
- JSON `null` values, and keys whose value has an unexpected type: a key is either present with the expected shape or absent.
- CSV type effects other than the Finding above. A scraped GAME_ID is text while a stored one may read back as a number, so the deduplication keys could fail to match. Empty strings and "N/A" read back as NaN. Keys are compared here as the values the model holds.
- `Text.Lower`: ASCII letters only; Python's Unicode case mapping is not modelled.
- `Text.Strip`: ASCII whitespace only; other Unicode whitespace is not stripped.
- `Features.RollingWindow`: AVG_PTS_LAST_5 is an exact rational mean, not a float64 one.
- `Features.SortByTeamDate`: the order of rows with the same team and date is not stated, and GAME_DATE is compared as ISO text rather than converted with `pd.to_datetime`.
- `UpdateWithEspn.BoxRowOf`: the statistics are a map keyed by column name, so the column order of the written CSV is not modelled.
- `UpdateWithEspn.BoxRowOf`: an absent `winner` is the same as `false`.
- `PreprocessData.Preprocess`: pandas' `'first'` skips missing dates, and missing values are not modelled, so GAME_DATE is the first row's date.
- `UpdateWithEspn.AppendToRawCsv`: with no file, `combined` is the caller's `new_data` itself, so the in-place deduplication also removes rows from the caller's batch (and from the count logged at line 93); the model returns the written table and leaves the batch as it was.
- `EspnApi.FetchEspnTodayGames`: a response without `events` and one with an empty list are both an empty table; the exceptions `requests` raises are not modelled.
