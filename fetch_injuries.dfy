/** scripts/fetch_injuries.py: flattening ESPN injury records into rows, and
    merging a fetched batch into the stored injury table. */
module FetchInjuries {
  import opened Results
  import opened Text
  import Dedup

  // ---------------------------------------------------------------------------
  // The parsed JSON of one injury record. Every key is read with `.get`, so each
  // one may be absent.

  datatype TeamInfo = TeamInfo(displayName: Option<string>)
  datatype Position = Position(abbreviation: Option<string>)
  datatype Athlete = Athlete(fullName: Option<string>, position: Option<Position>)
  /** The record's "type" object, whose description is the injury status. */
  datatype StatusInfo = StatusInfo(description: Option<string>)
  /** The record's "details" object; `kind` is its "type" key. */
  datatype Details = Details(kind: Option<string>, side: Option<string>, detail: Option<string>,
                             returnDate: Option<string>)
  datatype NoteItem = NoteItem(headline: Option<string>)
  datatype Notes = Notes(items: Option<seq<NoteItem>>)

  datatype InjuryRecord = InjuryRecord(
    team: Option<TeamInfo>,
    athlete: Option<Athlete>,
    status: Option<StatusInfo>,
    details: Option<Details>,
    notes: Option<Notes>)

  /** One row of the injury table. */
  datatype InjuryRow = InjuryRow(
    team: string,
    player: string,
    position: string,
    injuryType: string,
    injuryStatus: string,
    startDate: string,
    details: string,
    fetchedAt: string)

  const Unknown := "Unknown"

  /** Python truthiness of a value read with `.get(key, None)`: present and non-empty. */
  predicate Truthy(o: Option<string>) {
    o.Some? && o.value != ""
  }

  /** `" ".join(parts)`. */
  function JoinSpace(parts: seq<string>): (r: string)
    ensures |parts| == 1 ==> r == parts[0]
    ensures |parts| == 2 ==> r == parts[0] + " " + parts[1]
  {
    if parts == [] then ""
    else if |parts| == 1 then parts[0]
    else parts[0] + " " + JoinSpace(parts[1..])
  }

  /** The `extras` list: the detail, then the side, each only when truthy. */
  function Extras(detail: Option<string>, side: Option<string>): seq<string> {
    (if Truthy(detail) then [detail.value] else []) + (if Truthy(side) then [side.value] else [])
  }

  /** The composite INJURY_TYPE: the raw type, followed by a space and the stripped
      join of the extras when that is non-empty. It is the raw type exactly when the
      joined extras are blank (InjuryTypeShape describes the other case). */
  function InjuryType(raw: string, detail: Option<string>, side: Option<string>): (r: string)
    ensures r == raw <==> AllSpace(JoinSpace(Extras(detail, side)))
  {
    var extras := Strip(JoinSpace(Extras(detail, side)));
    if extras != "" then raw + " " + extras else raw
  }

  /** INJURY_TYPE is the raw type alone when the joined extras are blank: no truthy
      detail or side, or only whitespace in them. */
  lemma InjuryTypeBlank(raw: string, detail: Option<string>, side: Option<string>)
    requires AllSpace(JoinSpace(Extras(detail, side)))
    ensures InjuryType(raw, detail, side) == raw
  {
  }

  lemma InjuryTypeNoExtras(raw: string, detail: Option<string>, side: Option<string>)
    requires !Truthy(detail) && !Truthy(side)
    ensures InjuryType(raw, detail, side) == raw
  {
    assert Extras(detail, side) == [];
    assert JoinSpace([]) == "";
  }

  /** Otherwise INJURY_TYPE is the raw type, a space, and a non-empty suffix that
      neither starts nor ends with whitespace: the joined extras with the whitespace
      at both of their ends removed. */
  lemma InjuryTypeShape(raw: string, detail: Option<string>, side: Option<string>)
    requires !AllSpace(JoinSpace(Extras(detail, side)))
    ensures |InjuryType(raw, detail, side)| > |raw| + 1
    ensures InjuryType(raw, detail, side)[..|raw| + 1] == raw + " "
    ensures !IsSpace(InjuryType(raw, detail, side)[|raw| + 1])
    ensures !IsSpace(InjuryType(raw, detail, side)[|InjuryType(raw, detail, side)| - 1])
    ensures var j := JoinSpace(Extras(detail, side));
            exists a, b | 0 <= a <= b <= |j| ::
              InjuryType(raw, detail, side) == raw + " " + j[a..b] && AllSpace(j[..a]) && AllSpace(j[b..])
  {
    var extras := Strip(JoinSpace(Extras(detail, side)));
    var r := InjuryType(raw, detail, side);
    assert r == raw + " " + extras;
    assert r[..|raw| + 1] == raw + " ";
    assert r[|raw| + 1] == extras[0];
    assert r[|r| - 1] == extras[|extras| - 1];
  }

  predicate Trimmed(s: string) {
    s != [] && !IsSpace(s[0]) && !IsSpace(s[|s| - 1])
  }

  /** With detail and side free of surrounding whitespace, INJURY_TYPE is
      "<type> <detail> <side>", dropping whichever of the two is absent or empty. */
  lemma InjuryTypeOfTrimmedParts(raw: string, detail: Option<string>, side: Option<string>)
    requires Truthy(detail) ==> Trimmed(detail.value)
    requires Truthy(side) ==> Trimmed(side.value)
    ensures Truthy(detail) && Truthy(side) ==>
              InjuryType(raw, detail, side) == raw + " " + detail.value + " " + side.value
    ensures Truthy(detail) && !Truthy(side) ==> InjuryType(raw, detail, side) == raw + " " + detail.value
    ensures !Truthy(detail) && Truthy(side) ==> InjuryType(raw, detail, side) == raw + " " + side.value
  {
    if Truthy(detail) && Truthy(side) {
      InjuryTypeOfBoth(raw, detail.value, side.value);
    } else if Truthy(detail) {
      InjuryTypeOfOne(raw, detail, side, detail.value);
    } else if Truthy(side) {
      InjuryTypeOfOne(raw, detail, side, side.value);
    }
  }

  lemma InjuryTypeOfBoth(raw: string, d: string, sd: string)
    requires Trimmed(d) && Trimmed(sd)
    ensures InjuryType(raw, Some(d), Some(sd)) == raw + " " + d + " " + sd
  {
    var j := d + " " + sd;
    assert JoinSpace(Extras(Some(d), Some(sd))) == j by {
      assert Extras(Some(d), Some(sd)) == [d, sd];
    }
    JoinedTrimmed(d, sd);
    StripUnchanged(j);
    InjuryTypeOfStripped(raw, Some(d), Some(sd), j);
  }

  lemma JoinedTrimmed(d: string, sd: string)
    requires Trimmed(d) && Trimmed(sd)
    ensures Trimmed(d + " " + sd)
  {
    var j := d + " " + sd;
    assert j[0] == d[0] && j[|j| - 1] == sd[|sd| - 1];
  }

  lemma InjuryTypeOfOne(raw: string, detail: Option<string>, side: Option<string>, x: string)
    requires Trimmed(x)
    requires Extras(detail, side) == [x]
    ensures InjuryType(raw, detail, side) == raw + " " + x
  {
    StripUnchanged(x);
    InjuryTypeOfStripped(raw, detail, side, x);
  }

  lemma InjuryTypeOfStripped(raw: string, detail: Option<string>, side: Option<string>, x: string)
    requires x != "" && Strip(JoinSpace(Extras(detail, side))) == x
    ensures InjuryType(raw, detail, side) == raw + " " + x
  {
  }

  function TeamName(rec: InjuryRecord): string {
    match rec.team
    case Some(t) => t.displayName.GetOr(Unknown)
    case None => Unknown
  }

  function PlayerName(rec: InjuryRecord): string {
    match rec.athlete
    case Some(a) => a.fullName.GetOr(Unknown)
    case None => Unknown
  }

  function PositionOf(rec: InjuryRecord): string {
    match rec.athlete
    case Some(Athlete(_, Some(p))) => p.abbreviation.GetOr("N/A")
    case _ => "N/A"
  }

  function StatusOf(rec: InjuryRecord): string {
    match rec.status
    case Some(s) => s.description.GetOr(Unknown)
    case None => Unknown
  }

  function DetailsOf(rec: InjuryRecord): Details {
    rec.details.GetOr(Details(None, None, None, None))
  }

  /** The headline of the first note item, or "" when there is none. */
  function Headline(rec: InjuryRecord): (h: string)
    ensures (rec.notes.None? || rec.notes.value.items.None? || rec.notes.value.items.value == []) ==> h == ""
    ensures rec.notes.Some? && rec.notes.value.items.Some? && rec.notes.value.items.value != [] ==>
              h == rec.notes.value.items.value[0].headline.GetOr("")
  {
    match rec.notes
    case None => ""
    case Some(n) =>
      var items := n.items.GetOr([]);
      if items != [] then items[0].headline.GetOr("") else ""
  }

  /** The loop body of `fetch_injury_report`: one record to one row, with
      `fetchedAt` as the clock reading, stamped on every row. A record without
      "details" has an unknown injury type and start date. */
  function NormalizeInjury(rec: InjuryRecord, fetchedAt: string): (r: InjuryRow)
    ensures r.fetchedAt == fetchedAt
    ensures rec.details.None? ==> r.injuryType == Unknown && r.startDate == Unknown
  {
    var d := DetailsOf(rec);
    InjuryRow(
      team := TeamName(rec),
      player := PlayerName(rec),
      position := PositionOf(rec),
      injuryType := InjuryType(d.kind.GetOr(Unknown), d.detail, d.side),
      injuryStatus := StatusOf(rec),
      startDate := d.returnDate.GetOr(Unknown),
      details := Headline(rec),
      fetchedAt := fetchedAt)
  }

  /** Absent keys take their defaults: "Unknown" for the team, player, status, start
      date and raw injury type, "N/A" for the position, "" for the note headline;
      present keys are copied. */
  lemma NormalizeInjuryDefaults(rec: InjuryRecord, fetchedAt: string)
    ensures var r := NormalizeInjury(rec, fetchedAt);
      && (rec.team.None? || rec.team.value.displayName.None? ==> r.team == Unknown)
      && (rec.team.Some? && rec.team.value.displayName.Some? ==> r.team == rec.team.value.displayName.value)
      && (rec.athlete.None? || rec.athlete.value.fullName.None? ==> r.player == Unknown)
      && (rec.athlete.Some? && rec.athlete.value.fullName.Some? ==> r.player == rec.athlete.value.fullName.value)
      && ((rec.athlete.None? || rec.athlete.value.position.None?
           || rec.athlete.value.position.value.abbreviation.None?) ==> r.position == "N/A")
      && (rec.athlete.Some? && rec.athlete.value.position.Some? && rec.athlete.value.position.value.abbreviation.Some?
          ==> r.position == rec.athlete.value.position.value.abbreviation.value)
      && (rec.status.None? || rec.status.value.description.None? ==> r.injuryStatus == Unknown)
      && (rec.status.Some? && rec.status.value.description.Some? ==> r.injuryStatus == rec.status.value.description.value)
      && (rec.details.None? || rec.details.value.returnDate.None? ==> r.startDate == Unknown)
      && (rec.details.Some? && rec.details.value.returnDate.Some? ==> r.startDate == rec.details.value.returnDate.value)
      && (rec.details.None? ==> r.injuryType == Unknown)
      && r.injuryType == InjuryType(DetailsOf(rec).kind.GetOr(Unknown), DetailsOf(rec).detail, DetailsOf(rec).side)
      && r.details == Headline(rec)
      && r.fetchedAt == fetchedAt
  {
    var d := DetailsOf(rec);
    if rec.details.None? {
      assert Extras(d.detail, d.side) == [];
      assert JoinSpace([]) == "";
    }
  }

  /** `fetch_injury_report` once the response is parsed: `injuries` is the
      "injuries" key of the response (absent or empty gives no rows). One row per
      record, in record order. */
  method FetchInjuryReport(injuries: Option<seq<InjuryRecord>>, fetchedAt: string)
    returns (rows: seq<InjuryRow>)
    ensures injuries.None? || injuries.value == [] ==> rows == []
    ensures |rows| == |injuries.GetOr([])|
    ensures forall i :: 0 <= i < |rows| ==> rows[i] == NormalizeInjury(injuries.GetOr([])[i], fetchedAt)
  {
    var list := injuries.GetOr([]);
    rows := [];
    if list == [] {
      return;
    }
    for i := 0 to |list|
      invariant |rows| == i
      invariant forall k :: 0 <= k < i ==> rows[k] == NormalizeInjury(list[k], fetchedAt)
    {
      var row := NormalizeInjury(list[i], fetchedAt);
      rows := rows + [row];
    }
  }

  // ---------------------------------------------------------------------------
  // save_injuries_to_csv

  /** The `subset` of the drop: (TEAM, PLAYER, INJURY_STATUS, START_DATE). */
  function InjuryKey(r: InjuryRow): (string, string, string, string) {
    (r.team, r.player, r.injuryStatus, r.startDate)
  }

  /** `save_injuries_to_csv` on the stored table (`None` when there is no file):
      the new file contents. An empty batch changes nothing; without a file the batch
      is written as it is; otherwise stored rows then new rows, keeping the last row
      per key. */
  method SaveInjuriesToCsv(stored: Option<seq<InjuryRow>>, batch: seq<InjuryRow>)
    returns (file: Option<seq<InjuryRow>>)
    ensures batch == [] ==> file == stored
    ensures batch != [] && stored.None? ==> file == Some(batch)
    ensures batch != [] && stored.Some? ==> file == Some(Dedup.KeepLast(stored.value + batch, InjuryKey))
    ensures batch != [] && stored.Some? ==> Dedup.DistinctKeys(file.value, InjuryKey)
    ensures batch != [] ==> file.Some? && Dedup.KeySet(batch, InjuryKey) <= Dedup.KeySet(file.value, InjuryKey)
  {
    if batch == [] {
      return stored;
    }
    match stored {
      case None =>
        file := Some(batch);
      case Some(existing) =>
        var combined := existing + batch;
        combined := Dedup.DropDuplicatesKeepLast(combined, InjuryKey);
        Dedup.KeepLastSpec(existing + batch, InjuryKey);
        KeySetAppend(existing, batch);
        file := Some(combined);
    }
  }

  lemma KeySetAppend(a: seq<InjuryRow>, b: seq<InjuryRow>)
    ensures Dedup.KeySet(b, InjuryKey) <= Dedup.KeySet(a + b, InjuryKey)
  {
    forall k | k in Dedup.KeySet(b, InjuryKey) ensures k in Dedup.KeySet(a + b, InjuryKey) {
      var i :| 0 <= i < |b| && InjuryKey(b[i]) == k;
      assert (a + b)[|a| + i] == b[i];
    }
  }
}
