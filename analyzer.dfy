/**
 * The query engine: the seven handlers of the analyser, each a method that reads
 * the retriever's store and returns what the handler emits, proved equal to the
 * specification of that question.
 */
module Analyzer {
  import opened Options
  import opened Text
  import opened TimeCodec
  import opened SkiStore
  import opened DistanceTable
  import opened AnalyzerRows
  import opened Tallies
  import opened Retriever
  import Search
  import Rankings
  import Teams
  import Prediction

  // ---------------------------------------------------------------------------
  // The comparison

  /** The rows of one distance code of one year, in stored order. */
  function DistanceRows(db: Database, year: int, code: string, speed: SpeedText): seq<Row>
  {
    BucketRows(Bucket(SkiingDataOf(db, year, code), code), code, speed)
  }

  /**
   * The two sides of a comparison: the rows of each chosen distance and year, or
   * nothing when either code is "All".
   */
  function Comparison(db: Database, params: seq<string>, speed: SpeedText): (seq<Row>, seq<Row>)
    requires |params| >= 4
  {
    var type1 := SearchDistanceParameter(params[0]);
    var type2 := SearchDistanceParameter(params[2]);
    if type1 != "All" && type2 != "All" then
      (DistanceRows(db, ParseInt(params[1]), type1, speed), DistanceRows(db, ParseInt(params[3]), type2, speed))
    else ([], [])
  }

  /**
   * The guard against "All" never holds back a comparison, since no label's code is
   * "All": both sides are always read, one row per stored record.
   */
  lemma ComparisonReadsBothSides(db: Database, params: seq<string>, speed: SpeedText)
    requires |params| >= 4
    ensures var type1 := SearchDistanceParameter(params[0]);
            var type2 := SearchDistanceParameter(params[2]);
            Comparison(db, params, speed) ==
              (DistanceRows(db, ParseInt(params[1]), type1, speed), DistanceRows(db, ParseInt(params[3]), type2, speed))
    ensures |Comparison(db, params, speed).0| ==
              |Bucket(SkiingDataOf(db, ParseInt(params[1]), SearchDistanceParameter(params[0])), SearchDistanceParameter(params[0]))|
    ensures |Comparison(db, params, speed).1| ==
              |Bucket(SkiingDataOf(db, ParseInt(params[3]), SearchDistanceParameter(params[2])), SearchDistanceParameter(params[2]))|
  {
    SearchDistanceParameterAgreesWithTable(params[0]);
    SearchDistanceParameterAgreesWithTable(params[2]);
  }

  // ---------------------------------------------------------------------------
  // Applying filters

  /** Filtering by a list of filters and then by more filters is filtering by both lists. */
  lemma {:induction false} ApplyFiltersAppend(rows: seq<Row>, a: seq<Search.Filter>, b: seq<Search.Filter>)
    ensures Search.ApplyFilters(rows, a + b) == Search.ApplyFilters(Search.ApplyFilters(rows, a), b)
    decreases |a|
  {
    if a == [] {
      assert a + b == b;
    } else {
      ApplyFiltersAppend(Search.Keep(rows, a[0]), a[1..], b);
      assert a + b != [] && (a + b)[0] == a[0] && (a + b)[1..] == a[1..] + b;
    }
  }

  /** One more pass of a chain: the filters applied so far, then the next one when active. */
  lemma Chained(rows: seq<Row>, kept: seq<Row>, applied: seq<Search.Filter>, active: bool, f: Search.Filter)
    returns (next: seq<Search.Filter>)
    requires kept == Search.ApplyFilters(rows, applied)
    ensures next == applied + Search.When(active, f)
    ensures Search.ApplyFilters(kept, Search.When(active, f)) == Search.ApplyFilters(rows, next)
  {
    next := applied + Search.When(active, f);
    ApplyFiltersAppend(rows, applied, Search.When(active, f));
  }

  /**
   * The rows that pass a test, in their order: the filter loop's specification, over
   * any test, so that its proof does not open the filter's own test.
   */
  function KeepIf(rows: seq<Row>, pass: Row -> bool): (kept: seq<Row>)
    ensures |kept| <= |rows|
    decreases |rows|
  {
    if rows == [] then [] else (if pass(rows[0]) then [rows[0]] else []) + KeepIf(rows[1..], pass)
  }

  /** A filter pass keeps the rows for which the filter's test holds. */
  lemma {:induction false} KeepIsKeepIf(rows: seq<Row>, f: Search.Filter)
    ensures Search.Keep(rows, f) == KeepIf(rows, (row: Row) => Search.Matches(row, f))
    decreases |rows|
  {
    if rows != [] {
      KeepIsKeepIf(rows[1..], f);
    }
  }

  /** A filter pass over two stretches of rows keeps each stretch's passing rows, in order. */
  lemma {:induction false} KeepIfAppend(a: seq<Row>, b: seq<Row>, pass: Row -> bool)
    ensures KeepIf(a + b, pass) == KeepIf(a, pass) + KeepIf(b, pass)
    decreases |a|
  {
    if a == [] {
      assert a + b == b;
    } else {
      var head := if pass(a[0]) then [a[0]] else [];
      assert (a + b)[0] == a[0] && (a + b)[1..] == a[1..] + b;
      assert KeepIf(a + b, pass) == head + KeepIf(a[1..] + b, pass);
      KeepIfAppend(a[1..], b, pass);
      var front, back := KeepIf(a[1..], pass), KeepIf(b, pass);
      assert head + (front + back) == (head + front) + back;
    }
  }

  /** Every row that passes a filter chain is one of the rows filtered. */
  lemma ApplyFiltersKeepsRows(rows: seq<Row>, fs: seq<Search.Filter>)
    ensures forall x | x in Search.ApplyFilters(rows, fs) :: x in rows
  {
    Search.ChainSelects(rows, fs);
    Search.SelectedMembers(rows, fs);
  }

  // ---------------------------------------------------------------------------
  // Time progression

  /** Every row's time is one the time parser reads. */
  predicate RowTimesReadable(rows: seq<Row>)
  {
    forall i | 0 <= i < |rows| :: InDomain(rows[i][TimeColumn])
  }

  /** Every record of every bucket has a readable time. */
  predicate DataTimesReadable(data: SkiingData)
  {
    forall k | k in data :: forall r | r in data[k] :: InDomain(Field(r, "time"))
  }

  /** The rows of buckets whose records have readable times have readable times. */
  lemma {:induction false} RowsOfKeysReadable(data: SkiingData, keys: seq<string>, speed: SpeedText)
    requires DataTimesReadable(data)
    ensures RowTimesReadable(RowsOfKeys(data, keys, speed))
    decreases |keys|
  {
    if keys != [] {
      var key := keys[|keys| - 1];
      RowsOfKeysReadable(data, keys[..|keys| - 1], speed);
      var bucket := Bucket(data, key);
      var more := BucketRows(bucket, key, speed);
      forall j | 0 <= j < |more| ensures InDomain(more[j][TimeColumn]) {
        assert more[j] == CreateEmit(bucket[j], key, speed);
        assert bucket[j] in data[key];
      }
    }
  }

  /** The rows of every distance of a year from a readable store have readable times. */
  lemma YearRowsReadable(db: Database, year: int, speed: SpeedText)
    requires TimesReadable(db)
    ensures RowTimesReadable(YearRows(db, year, "all", speed))
  {
    var data := SkiingDataOf(db, year, "");
    LookupTimesReadable(db, year, "");
    RowsOfKeysReadable(data, SortedKeys(data.Keys), speed);
  }

  /** Filtering keeps times readable. */
  lemma FilteredRowsReadable(rows: seq<Row>, fs: seq<Search.Filter>)
    requires RowTimesReadable(rows)
    ensures RowTimesReadable(Search.ApplyFilters(rows, fs))
  {
    var kept := Search.ApplyFilters(rows, fs);
    ApplyFiltersKeepsRows(rows, fs);
    forall i | 0 <= i < |kept| ensures InDomain(kept[i][TimeColumn]) {
      assert kept[i] in rows;
    }
  }

  /** The filters of the time progression: forename, then family name, each when given. */
  function NameFilters(forename: string, familyName: string): seq<Search.Filter>
  {
    Search.When(forename != "", Search.Forename(forename)) + Search.When(familyName != "", Search.FamilyName(familyName))
  }

  /** Year, distance and time in hours (as text) of each row, three texts per row. */
  function TimeTriples(rows: seq<Row>, numberText: real -> string): (ts: seq<string>)
    requires RowTimesReadable(rows)
    ensures |ts| == 3 * |rows|
    decreases |rows|
  {
    if rows == [] then []
    else
      var row := rows[|rows| - 1];
      TimeTriples(rows[..|rows| - 1], numberText) + [row[YearColumn], row[DistanceColumn], numberText(TimeToHours(row[TimeColumn]))]
  }

  /** Texts 3i, 3i+1 and 3i+2 are the year, the distance and the hours of row i. */
  lemma {:induction false} TimeTriplesAt(rows: seq<Row>, numberText: real -> string, i: nat)
    requires RowTimesReadable(rows) && i < |rows|
    ensures var ts := TimeTriples(rows, numberText);
            ts[3 * i] == rows[i][YearColumn] && ts[3 * i + 1] == rows[i][DistanceColumn] &&
            ts[3 * i + 2] == numberText(TimeToHours(rows[i][TimeColumn]))
    decreases |rows|
  {
    if i < |rows| - 1 {
      TimeTriplesAt(rows[..|rows| - 1], numberText, i);
    }
  }

  /** The rows of a year of the athlete's time progression: every row whose two name parts match. */
  ghost function AthleteRows(db: Database, year: int, forename: string, familyName: string, speed: SpeedText): seq<Row>
  {
    Search.ApplyFilters(YearRows(db, year, "all", speed), NameFilters(forename, familyName))
  }

  /** The texts one year of the time progression emits. */
  ghost function YearTimes(db: Database, year: int, forename: string, familyName: string, speed: SpeedText,
                           numberText: real -> string): seq<string>
    requires TimesReadable(db)
  {
    YearRowsReadable(db, year, speed);
    FilteredRowsReadable(YearRows(db, year, "all", speed), NameFilters(forename, familyName));
    TimeTriples(AthleteRows(db, year, forename, familyName, speed), numberText)
  }

  /** The time progression's part of each year. */
  ghost function TimesByYear(db: Database, forename: string, familyName: string, speed: SpeedText,
                             numberText: real -> string): int -> seq<string>
    requires TimesReadable(db)
  {
    year => YearTimes(db, year, forename, familyName, speed, numberText)
  }

  /** The time progression: nothing unless both the forename and the family name are given. */
  ghost function AthleteTimes(db: Database, params: seq<string>, speed: SpeedText, numberText: real -> string): seq<string>
    requires |params| >= 4 && TimesReadable(db)
  {
    if |params[2]| > 0 && |params[3]| > 0 then
      OverYears(TimesByYear(db, params[2], params[3], speed, numberText), ParseInt(params[0]), ParseInt(params[1]))
    else []
  }

  /**
   * With both names given, the name filters keep exactly the rows whose forename and
   * family name match, lower-cased, in their order.
   */
  lemma NameFiltersSelect(rows: seq<Row>, forename: string, familyName: string)
    requires forename != "" && familyName != ""
    ensures forall x :: x in Search.ApplyFilters(rows, NameFilters(forename, familyName)) <==>
              x in rows && ToLower(SplitName(x[NameColumn])[1]) == ToLower(forename) &&
              ToLower(SplitName(x[NameColumn])[0]) == ToLower(familyName)
    ensures Search.IsSubsequence(Search.ApplyFilters(rows, NameFilters(forename, familyName)), rows)
  {
    var fs := NameFilters(forename, familyName);
    assert fs == [Search.Forename(forename), Search.FamilyName(familyName)];
    Search.ChainSelects(rows, fs);
    Search.SelectedMembers(rows, fs);
    Search.SelectedIsSubsequence(rows, fs);
    forall x ensures Search.MatchesAll(x, fs) <==> Search.Matches(x, fs[0]) && Search.Matches(x, fs[1]) {
      if Search.Matches(x, fs[0]) && Search.Matches(x, fs[1]) {
        forall i | 0 <= i < |fs| ensures Search.Matches(x, fs[i]) {
        }
      }
    }
  }

  // ---------------------------------------------------------------------------
  // Team ranking

  /** The teams of the chosen race of the chosen year, with their members' times. */
  function TeamsOfRace(db: Database, params: seq<string>): Teams.TeamTimes
    requires |params| >= 2
  {
    Teams.TeamTimesOf(Bucket(SkiingDataOf(db, ParseInt(params[0]), ""), SearchDistanceParameter(params[1])))
  }

  /** Every key of a ranking is a readable time. */
  lemma RankingReadable(teams: Teams.TeamTimes, order: seq<string>)
    requires forall k | k in order :: k in teams
    requires Teams.TeamsReadable(teams)
    ensures forall k | k in Teams.Ranking(teams, order, order) :: InDomain(k)
  {
    forall k | k in Teams.Ranking(teams, order, order) ensures InDomain(k) {
      Teams.RankingKeysReadable(teams, order, order, k);
    }
  }

  /** The team ranking of a race's teams, listed in ascending name order. */
  ghost function RankingOfTeams(teams: Teams.TeamTimes): (top: map<string, string>)
    requires Teams.TeamsReadable(teams)
    ensures forall k | k in top :: InDomain(k)
  {
    var order := SortedKeys(teams.Keys);
    SortedKeysEnumerates(teams.Keys);
    RankingReadable(teams, order);
    Teams.Ranking(teams, order, order)
  }

  /** The combined time -> team map of the race, teams taken in ascending name order. */
  ghost function RaceRanking(db: Database, params: seq<string>): (top: map<string, string>)
    requires |params| >= 2 && Teams.TeamsReadable(TeamsOfRace(db, params))
    ensures forall k | k in top :: InDomain(k)
  {
    RankingOfTeams(TeamsOfRace(db, params))
  }

  /** The rows of the team ranking. */
  ghost function TeamRankingRows(db: Database, params: seq<string>): seq<seq<string>>
    requires |params| >= 2 && Teams.TeamsReadable(TeamsOfRace(db, params))
  {
    Teams.TeamRanking(RaceRanking(db, params), params[0], params[1])
  }

  /**
   * The ranking lists combined times of teams with four members or more, each with a
   * team of that combined time, and every such team's combined time.
   */
  lemma RankingOfTeamsListsTeams(teams: Teams.TeamTimes)
    requires Teams.TeamsReadable(teams)
    ensures forall key | key in RankingOfTeams(teams) ::
              Teams.Qualifies(teams, RankingOfTeams(teams)[key]) &&
              Teams.CombinedTime(teams[RankingOfTeams(teams)[key]]) == key
    ensures forall team | Teams.Qualifies(teams, team) :: Teams.CombinedTime(teams[team]) in RankingOfTeams(teams)
  {
    var order := SortedKeys(teams.Keys);
    SortedKeysEnumerates(teams.Keys);
    forall key | key in RankingOfTeams(teams)
      ensures Teams.Qualifies(teams, RankingOfTeams(teams)[key]) &&
              Teams.CombinedTime(teams[RankingOfTeams(teams)[key]]) == key
    {
      Teams.RankingTeamsQualify(teams, order, key);
    }
    forall team | Teams.Qualifies(teams, team) ensures Teams.CombinedTime(teams[team]) in RankingOfTeams(teams) {
      var j :| 0 <= j < |order| && order[j] == team;
      Teams.RankingCoversTeams(teams, order, order, j);
    }
  }

  /** The counters of the first n members of a team, added up without carrying. */
  function LegsSum(times: seq<string>, n: nat): Teams.Clock
    requires Teams.FirstFourReadable(times) && n <= 4
  {
    if n == 0 then Teams.Clock(0, 0, 0, 0) else Teams.Add(LegsSum(times, n - 1), Teams.ReadClock(times[n - 1]))
  }

  // ---------------------------------------------------------------------------
  // Passes over the rows

  /** One filter pass, keeping the rows that pass its test in their order. */
  method KeepRows(rows: seq<Row>, pass: Row -> bool) returns (kept: seq<Row>)
    ensures kept == KeepIf(rows, pass)
  {
    kept := [];
    for k := 0 to |rows|
      invariant kept == KeepIf(rows[..k], pass)
    {
      assert rows[..k + 1] == rows[..k] + [rows[k]];
      KeepIfAppend(rows[..k], [rows[k]], pass);
      if pass(rows[k]) {
        kept := kept + [rows[k]];
      }
    }
    assert rows[..|rows|] == rows;
  }

  /** A filter pass that runs only when its parameter is not at its default. */
  method FilterWhen(rows: seq<Row>, active: bool, f: Search.Filter) returns (kept: seq<Row>)
    ensures kept == Search.ApplyFilters(rows, Search.When(active, f))
  {
    if active {
      kept := KeepRows(rows, (row: Row) => Search.Matches(row, f));
      KeepIsKeepIf(rows, f);
      assert Search.When(active, f) == [f];
    } else {
      kept := rows;
    }
  }

  /** The search's filter chain, in the order the query applies the parameters. */
  method FilterChain(rows: seq<Row>, params: seq<string>) returns (kept: seq<Row>)
    requires |params| >= Search.ParamCount
    ensures kept == Search.ApplyFilters(rows, Search.ActiveFilters(params))
  {
    var byAthlete := FilterAthlete(rows, params);
    kept := FilterOriginAndTime(byAthlete, params);
    ApplyFiltersAppend(rows, Search.AthleteFilters(params), Search.OriginAndTimeFilters(params));
  }

  /** The filters on forename, family name, sex and team, one after the other. */
  method FilterAthlete(rows: seq<Row>, params: seq<string>) returns (kept: seq<Row>)
    requires |params| >= Search.ParamCount
    ensures kept == Search.ApplyFilters(rows, Search.AthleteFilters(params))
  {
    var forename, familyName := params[Search.ForenameParam], params[Search.FamilyNameParam];
    var gender, team := params[Search.GenderParam], params[Search.TeamParam];
    ghost var applied := Search.When(forename != "", Search.Forename(forename));
    kept := FilterWhen(rows, forename != "", Search.Forename(forename));
    applied := Chained(rows, kept, applied, familyName != "", Search.FamilyName(familyName));
    kept := FilterWhen(kept, familyName != "", Search.FamilyName(familyName));
    applied := Chained(rows, kept, applied, gender != "Both", Search.Sex(Search.SexCode(gender)));
    kept := FilterWhen(kept, gender != "Both", Search.Sex(Search.SexCode(gender)));
    applied := Chained(rows, kept, applied, team != "", Search.Team(team));
    kept := FilterWhen(kept, team != "", Search.Team(team));
  }

  /** The filters on nationality, locality and the two time limits, one after the other. */
  method FilterOriginAndTime(rows: seq<Row>, params: seq<string>) returns (kept: seq<Row>)
    requires |params| >= Search.ParamCount
    ensures kept == Search.ApplyFilters(rows, Search.OriginAndTimeFilters(params))
  {
    var nationality, locality := params[Search.NationalityParam], params[Search.LocalityParam];
    var timeFrom, timeTo := params[Search.TimeFromParam], params[Search.TimeToParam];
    ghost var applied := Search.When(nationality != "", Search.Nationality(nationality));
    kept := FilterWhen(rows, nationality != "", Search.Nationality(nationality));
    applied := Chained(rows, kept, applied, locality != "", Search.Locality(locality));
    kept := FilterWhen(kept, locality != "", Search.Locality(locality));
    applied := Chained(rows, kept, applied, timeFrom != "0", Search.TimeFrom(ParseReal(timeFrom)));
    kept := FilterWhen(kept, timeFrom != "0", Search.TimeFrom(ParseReal(timeFrom)));
    applied := Chained(rows, kept, applied, timeTo != "All", Search.TimeTo(ParseReal(timeTo)));
    kept := FilterWhen(kept, timeTo != "All", Search.TimeTo(ParseReal(timeTo)));
  }

  /** The rows emitted of the filtered ones: all for "All", otherwise while the count is below N. */
  method TopRows(rows: seq<Row>, top: string) returns (shown: seq<Row>)
    ensures shown == Search.Top(rows, top)
  {
    shown := [];
    if top == "All" {
      for k := 0 to |rows|
        invariant shown == rows[..k]
      {
        shown := shown + [rows[k]];
      }
      assert rows[..|rows|] == rows;
    } else {
      var n := ParseInt(top);
      var k := 0;
      while k < |rows| && k < n
        invariant 0 <= k <= |rows| && (k <= n || k == 0)
        invariant shown == rows[..k]
      {
        shown := shown + [rows[k]];
        k := k + 1;
      }
      assert rows[..|rows|] == rows;
    }
  }

  /** Emitting the rows of one side of a comparison, counting them. */
  method EmitCounted(cont: seq<Row>) returns (emitted: seq<Row>, total: int)
    ensures emitted == cont && total == |cont|
  {
    emitted := [];
    total := 0;
    for j := 0 to |cont|
      invariant total == j && emitted == cont[..j]
    {
      total := total + 1;
      emitted := emitted + [cont[j]];
    }
    assert cont[..|cont|] == cont;
  }

  /** The name filters of the time progression: forename, then family name. */
  method FilterNames(rows: seq<Row>, forename: string, familyName: string) returns (kept: seq<Row>)
    ensures kept == Search.ApplyFilters(rows, NameFilters(forename, familyName))
  {
    ghost var applied := Search.When(forename != "", Search.Forename(forename));
    kept := FilterWhen(rows, forename != "", Search.Forename(forename));
    applied := Chained(rows, kept, applied, familyName != "", Search.FamilyName(familyName));
    kept := FilterWhen(kept, familyName != "", Search.FamilyName(familyName));
  }

  /** Year, distance and hours of each row, row after row. */
  method CollectTimes(rows: seq<Row>, numberText: real -> string) returns (times: seq<string>)
    requires RowTimesReadable(rows)
    ensures times == TimeTriples(rows, numberText)
  {
    times := [];
    for k := 0 to |rows|
      invariant times == TimeTriples(rows[..k], numberText)
    {
      assert rows[..k + 1][..k] == rows[..k];
      times := times + [rows[k][YearColumn], rows[k][DistanceColumn], numberText(TimeToHours(rows[k][TimeColumn]))];
    }
    assert rows[..|rows|] == rows;
  }

  /**
   * The winners of one race: the bucket scanned in stored order; on the first winner
   * the key is stripped to its digits, and the scan goes on in that key's bucket.
   */
  method ScanRace(data: SkiingData, key: string, gender: string, speed: SpeedText) returns (found: seq<Row>)
    ensures found == Rankings.BucketScan(data, key, 0, gender, speed)
  {
    var name := key;
    var i := 0;
    found := [];
    while i < |Bucket(data, name)|
      invariant found + Rankings.BucketScan(data, name, i, gender, speed) == Rankings.BucketScan(data, key, 0, gender, speed)
      decreases if Digits(name) == name then 0 else 1, |Bucket(data, name)| - i
    {
      var r := Bucket(data, name)[i];
      if Rankings.Qualifies(r, gender) {
        var stripped := Digits(name);
        DigitsOfDigits(stripped);
        found := found + [Rankings.BestRow(r, stripped, speed)];
        name := stripped;
      }
      i := i + 1;
    }
  }

  /** The winners of the listed races, race after race. */
  method ScanRaces(data: SkiingData, keys: seq<string>, gender: string, speed: SpeedText) returns (found: seq<Row>)
    ensures found == Rankings.YearBest(data, keys, gender, speed)
  {
    found := [];
    for k := 0 to |keys|
      invariant found == Rankings.YearBest(data, keys[..k], gender, speed)
    {
      var more := ScanRace(data, keys[k], gender, speed);
      assert keys[..k + 1][..k] == keys[..k];
      found := found + more;
    }
    assert keys[..|keys|] == keys;
  }

  /** Counts the nationality of each participant of a race into the list, in stored order. */
  method CountBucket(list: map<string, nat>, bucket: seq<Record>, ghost seen: seq<string>) returns (counted: map<string, nat>)
    requires list == Tally(seen)
    ensures counted == Tally(seen + Rankings.BucketNationalities(bucket))
  {
    counted := list;
    assert seen + Rankings.BucketNationalities(bucket)[..0] == seen;
    for x := 0 to |bucket|
      invariant counted == Tally(seen + Rankings.BucketNationalities(bucket)[..x])
    {
      var nationality := Field(bucket[x], "nationality");
      ghost var before := seen + Rankings.BucketNationalities(bucket)[..x];
      TallyAppend(before, nationality);
      assert seen + Rankings.BucketNationalities(bucket)[..x + 1] == before + [nationality];
      if nationality in counted {
        counted := counted[nationality := counted[nationality] + 1];
      } else {
        counted := counted[nationality := 1];
      }
    }
    assert Rankings.BucketNationalities(bucket)[..|bucket|] == Rankings.BucketNationalities(bucket);
  }

  /** The nationality distribution over the listed races, race after race. */
  method CountRaces(data: SkiingData, keys: seq<string>) returns (list: map<string, nat>)
    ensures list == Tally(Rankings.Nationalities(data, keys))
  {
    list := map[];
    for race := 0 to |keys|
      invariant list == Tally(Rankings.Nationalities(data, keys[..race]))
    {
      assert keys[..race + 1][..race] == keys[..race];
      list := CountBucket(list, Bucket(data, keys[race]), Rankings.Nationalities(data, keys[..race]));
    }
    assert keys[..|keys|] == keys;
  }

  /** The times of the members of each team of a race, a member without a team skipped. */
  method CollectTeams(bucket: seq<Record>) returns (teams: Teams.TeamTimes)
    ensures teams == Teams.TeamTimesOf(bucket)
  {
    teams := map[];
    for x := 0 to |bucket|
      invariant teams == Teams.TeamTimesOf(bucket[..x])
    {
      assert bucket[..x + 1][..x] == bucket[..x];
      var team := Field(bucket[x], "team");
      if team in teams {
        teams := teams[team := teams[team] + [Field(bucket[x], "time")]];
      } else if team != "" {
        teams := teams[team := [Field(bucket[x], "time")]];
      }
    }
    assert bucket[..|bucket|] == bucket;
  }

  /** The counters of one member's time: hours, minutes, seconds and hundredths if any. */
  method ReadCounters(time: string) returns (hours: int, minutes: int, seconds: int, hundredths: int)
    requires Teams.HasThreeParts(time)
    ensures Teams.Clock(hours, minutes, seconds, hundredths) == Teams.ReadClock(time)
  {
    var parts := Split(time, ':');
    hours := ParseInt(parts[0]);
    minutes := ParseInt(parts[1]);
    hundredths := 0;
    if '.' in parts[2] {
      SplitHasSeveralParts(parts[2], '.');
      var secondParts := Split(parts[2], '.');
      seconds := ParseInt(secondParts[0]);
      hundredths := ParseInt(secondParts[1]);
    } else {
      seconds := ParseInt(parts[2]);
    }
  }

  /** The four legs' counters summed leg by leg are the sum of the four clocks. */
  lemma LegsSumOfFour(times: seq<string>)
    requires Teams.FirstFourReadable(times)
    ensures LegsSum(times, 4) == Teams.Add(Teams.Add(Teams.Add(Teams.ReadClock(times[0]), Teams.ReadClock(times[1])),
                                                     Teams.ReadClock(times[2])), Teams.ReadClock(times[3]))
  {
    assert LegsSum(times, 2) == Teams.Add(Teams.ReadClock(times[0]), Teams.ReadClock(times[1])) by {
      assert LegsSum(times, 1) == Teams.Add(Teams.Clock(0, 0, 0, 0), Teams.ReadClock(times[0]));
    }
  }

  /** Carrying hundredths into seconds, seconds into minutes and minutes into hours. */
  method CarryCounters(hours: int, minutes: int, seconds: int, hundredths: int) returns (h: int, m: int, s: int, c: int)
    ensures Teams.Clock(h, m, s, c) == Teams.Carry(Teams.Clock(hours, minutes, seconds, hundredths))
  {
    h, m, s, c := hours, minutes, seconds, hundredths;
    s := s + CDiv(c, 100);
    c := CRem(c, 100);
    m := m + CDiv(s, 60);
    s := CRem(s, 60);
    h := h + CDiv(m, 60);
    m := CRem(m, 60);
  }

  /** Carrying the summed counters and writing them padded to two digits. */
  method CarryText(hours: int, minutes: int, seconds: int, hundredths: int) returns (text: string)
    ensures text == Teams.ClockText(Teams.Carry(Teams.Clock(hours, minutes, seconds, hundredths)))
  {
    var h, m, s, c := CarryCounters(hours, minutes, seconds, hundredths);
    text := Pad(h) + ":" + Pad(m) + ":" + Pad(s) + "." + Pad(c);
  }

  /**
   * The combined time of a team's first four members: the counters added up leg by
   * leg, then carried, then written with each counter padded to two digits.
   */
  method CombineTimes(times: seq<string>) returns (text: string)
    requires Teams.FirstFourReadable(times)
    ensures text == Teams.CombinedTime(times)
  {
    var hours, minutes, seconds, hundredths := 0, 0, 0, 0;
    for leg := 0 to 4
      invariant Teams.Clock(hours, minutes, seconds, hundredths) == LegsSum(times, leg)
    {
      var h, m, s, c := ReadCounters(times[leg]);
      hours, minutes, seconds, hundredths := hours + h, minutes + m, seconds + s, hundredths + c;
    }
    LegsSumOfFour(times);
    text := CarryText(hours, minutes, seconds, hundredths);
  }

  /** The first listed team whose member times are the given ones, or "" (a hash's key by value). */
  method LookupTeam(teams: Teams.TeamTimes, order: seq<string>, times: seq<string>) returns (name: string)
    ensures name == Teams.KeyOf(teams, order, times)
  {
    var i := 0;
    while i < |order| && !(order[i] in teams && teams[order[i]] == times)
      invariant 0 <= i <= |order|
      invariant Teams.KeyOf(teams, order[i..], times) == Teams.KeyOf(teams, order, times)
    {
      assert order[i..][1..] == order[i + 1..];
      i := i + 1;
    }
    name := if i < |order| then order[i] else "";
  }

  /**
   * The ranking map: each listed team with four members or more inserted under its
   * combined time, in listing order, so a later team replaces an earlier equal time.
   */
  method RankTeams(teams: Teams.TeamTimes, order: seq<string>) returns (top: map<string, string>)
    requires forall k | k in order :: k in teams
    requires Teams.TeamsReadable(teams)
    ensures top == Teams.Ranking(teams, order, order)
  {
    top := map[];
    for t := 0 to |order|
      invariant top == Teams.Ranking(teams, order, order[..t])
    {
      var times := teams[order[t]];
      Teams.RankingNext(teams, order, order[..t], order[t]);
      assert order[..t + 1] == order[..t] + [order[t]];
      if |times| >= 4 {
        var combined := CombineTimes(times);
        var name := LookupTeam(teams, order, times);
        top := top[combined := name];
      }
    }
    assert order[..|order|] == order;
  }

  /**
   * The rows with the row of one more place appended, whose number the counter holds:
   * the place, the team, the year and distance texts, the combined time, and the
   * average leg time (a quarter of it).
   */
  method AppendPlace(top: map<string, string>, keys: seq<string>, rows: seq<seq<string>>, place: nat, counter: int,
                     year: string, distance: string)
    returns (longer: seq<seq<string>>)
    requires place < |keys| && counter == place + 1
    requires forall k | k in keys :: k in top && InDomain(k)
    requires rows == Teams.TeamRows(top, keys, place, year, distance)
    ensures longer == Teams.TeamRows(top, keys, place + 1, year, distance)
  {
    Teams.PlacesGrow(place, Teams.RowOfPlace(top, keys, year, distance));
    longer := rows + [[IntToString(counter), top[keys[place]], year, distance, keys[place], FormatHours(TimeToHours(keys[place]) / 4.0)]];
  }

  /**
   * The rows of the ranking: its combined times in ascending order, each with its
   * place, team, year and distance texts and the average leg time; the loop stops
   * after the tenth.
   */
  method RankingRows(top: map<string, string>, year: string, distance: string) returns (rows: seq<seq<string>>)
    requires forall k | k in top :: InDomain(k)
    ensures rows == Teams.TeamRanking(top, year, distance)
  {
    var keys := OrderedKeys(top.Keys);
    SortedKeysEnumerates(top.Keys);
    assert |keys| == |top|;
    rows := PlaceRows(top, keys, year, distance);
  }

  /** The rows of the listed combined times, one per place, stopping after the tenth. */
  method PlaceRows(top: map<string, string>, keys: seq<string>, year: string, distance: string) returns (rows: seq<seq<string>>)
    requires forall k | k in keys :: k in top && InDomain(k)
    ensures rows == Teams.TeamRows(top, keys, if |keys| < Teams.TopCount then |keys| else Teams.TopCount, year, distance)
  {
    rows := [];
    var counter := 0;
    var i := 0;
    while i < |keys|
      invariant 0 <= i <= |keys| && i < Teams.TopCount && counter == i
      invariant rows == Teams.TeamRows(top, keys, i, year, distance)
    {
      counter := counter + 1;
      rows := AppendPlace(top, keys, rows, i, counter, year, distance);
      i := i + 1;
      if counter == Teams.TopCount {
        break;
      }
    }
  }

  /** The ranking of a race's teams and its rows. */
  method RankRace(teams: Teams.TeamTimes, year: string, distance: string) returns (rows: seq<seq<string>>)
    requires Teams.TeamsReadable(teams)
    ensures rows == Teams.TeamRanking(RankingOfTeams(teams), year, distance)
  {
    var order := OrderedKeys(teams.Keys);
    SortedKeysEnumerates(teams.Keys);
    var top := RankTeams(teams, order);
    RankingReadable(teams, order);
    rows := RankingRows(top, year, distance);
  }

  /** The choice of the name with the most wins over the names in ascending order. */
  method ChooseMostWins(counts: map<string, nat>) returns (mostWins: string)
    ensures mostWins == Prediction.MostWins(counts, SortedKeys(counts.Keys))
  {
    var keys := OrderedKeys(counts.Keys);
    mostWins := "";
    for k := 0 to |keys|
      invariant mostWins == Prediction.MostWins(counts, keys[..k])
    {
      assert keys[..k + 1][..k] == keys[..k];
      if mostWins == "" {
        mostWins := keys[k];
      } else if Prediction.Count(counts, keys[k]) > Prediction.Count(counts, mostWins) {
        mostWins := keys[k];
      }
    }
    assert keys[..|keys|] == keys;
  }

  /**
   * A year's winner counted: a name already listed goes up by one, a new name enters
   * with one win, and the winning time is kept either way.
   */
  method CountWinner(winnerList: map<string, nat>, totalTime: seq<string>, winner: Record, ghost winners: seq<Record>)
    returns (list: map<string, nat>, times: seq<string>)
    requires winnerList == Tally(Prediction.Column(winners, "name")) && totalTime == Prediction.Column(winners, "time")
    ensures list == Tally(Prediction.Column(winners + [winner], "name")) && times == Prediction.Column(winners + [winner], "time")
  {
    var name := Field(winner, "name");
    assert Prediction.Column(winners + [winner], "name") == Prediction.Column(winners, "name") + [name];
    assert Prediction.Column(winners + [winner], "time") == Prediction.Column(winners, "time") + [Field(winner, "time")];
    TallyAppend(Prediction.Column(winners, "name"), name);
    list, times := winnerList, totalTime;
    if name in list {
      list := list[name := list[name] + 1];
      times := times + [Field(winner, "time")];
    }
    if name !in list {
      list := list[name := 1];
      times := times + [Field(winner, "time")];
    }
  }

  /** The hours of the times added up, time after time. */
  method AddHours(times: seq<string>) returns (total: real)
    requires forall i | 0 <= i < |times| :: InDomain(times[i])
    ensures total == Prediction.SumHours(times)
  {
    total := 0.0;
    for k := 0 to |times|
      invariant total == Prediction.SumHours(times[..k])
    {
      assert times[..k + 1][..k] == times[..k];
      total := total + TimeToHours(times[k]);
    }
    assert times[..|times|] == times;
  }

  // ---------------------------------------------------------------------------
  // The analyser

  /**
   * The analyser: the retriever whose store it reads, and the two number texts it
   * writes (the average speed over a distance and time, and a number of hours).
   */
  class SkiAnalyzer {
    const retriever: SkiDataRetriever
    /** The average-speed text of a row: kilometre digits and time text in, text out. */
    const speed: SpeedText
    /** QString::number of a number of hours. */
    const numberText: real -> string

    /** A new analyser with a fresh retriever, its store holding only the mode flag. */
    constructor (anonymous: bool, md5Hex: string -> string, speed: SpeedText, numberText: real -> string)
      ensures fresh(retriever) && fresh(retriever.postParameters) && retriever.Valid()
      ensures retriever.anonymous == anonymous && retriever.data == FreshDatabase(anonymous)
      ensures this.speed == speed && this.numberText == numberText
    {
      retriever := new SkiDataRetriever(anonymous, md5Hex);
      this.speed := speed;
      this.numberText := numberText;
    }

    /** Starting the analyser starts the retriever with the cache file, if any. */
    method Run(cached: Option<Database>) returns (effects: seq<Event>)
      requires retriever.Valid()
      modifies retriever
      ensures retriever.Valid()
      ensures cached.None? ==> retriever.data == old(retriever.data) && effects == [GetRequest]
      ensures cached.Some? && Stale(cached.value, retriever.anonymous) ==>
                retriever.data == FreshDatabase(retriever.anonymous) && effects == [RemoveCacheFile, GetRequest]
      ensures cached.Some? && !Stale(cached.value, retriever.anonymous) ==>
                retriever.data == cached.value && effects == [DataReady(0, 0)]
    {
      effects := retriever.StartSkiingDataRetrieval(cached);
    }

    // -------------------------------------------------------------------------
    // Building blocks

    /** The rows of one bucket, one createEmit per record. */
    method EmitRows(data: SkiingData, key: string) returns (rows: seq<Row>)
      ensures rows == BucketRows(Bucket(data, key), key, speed)
    {
      var bucket := Bucket(data, key);
      rows := [];
      for j := 0 to |bucket|
        invariant |rows| == j
        invariant forall i | 0 <= i < j :: rows[i] == CreateEmit(bucket[i], key, speed)
      {
        rows := rows + [CreateEmit(bucket[j], key, speed)];
      }
    }

    /** A year's rows: the bucket of the code, or every bucket of the year for "all". */
    method YearRowsOf(year: int, code: string) returns (rows: seq<Row>)
      ensures rows == YearRows(retriever.data, year, code, speed)
    {
      if code != "all" {
        var data := retriever.GetSkiingData(year, code);
        rows := EmitRows(data, code);
      } else {
        var data := retriever.GetSkiingData(year, "");
        var keys := OrderedKeys(data.Keys);
        rows := [];
        for k := 0 to |keys|
          invariant rows == RowsOfKeys(data, keys[..k], speed)
        {
          var more := EmitRows(data, keys[k]);
          assert keys[..k + 1][..k] == keys[..k];
          rows := rows + more;
        }
        assert keys[..|keys|] == keys;
      }
    }

    // -------------------------------------------------------------------------
    // The handlers

    /** One year of the search: the year's rows of the code, filtered, cut to the first N. */
    method SearchYearOf(year: int, code: string, params: seq<string>) returns (shown: seq<Row>)
      requires |params| >= Search.ParamCount
      ensures shown == Search.SearchYear(retriever.data, year, code, Search.ActiveFilters(params), params[Search.TopParam], speed)
    {
      var rows := YearRowsOf(year, code);
      rows := FilterChain(rows, params);
      shown := TopRows(rows, params[Search.TopParam]);
    }

    /** The years first..last of the search, year after year. */
    method SearchYears(code: string, params: seq<string>, first: int, last: int) returns (emitted: seq<Row>)
      requires |params| >= Search.ParamCount
      ensures emitted == OverYears(Search.YearSearch(retriever.data, code, Search.ActiveFilters(params), params[Search.TopParam], speed), first, last)
    {
      ghost var yearPart := Search.YearSearch(retriever.data, code, Search.ActiveFilters(params), params[Search.TopParam], speed);
      emitted := [];
      var year := first;
      while year <= last
        invariant first <= year && (year <= last + 1 || year == first)
        invariant emitted == OverYears(yearPart, first, year - 1)
        decreases last - year
      {
        var shown := SearchYearOf(year, code, params);
        emitted := emitted + shown;
        year := year + 1;
      }
    }

    /**
     * The search: the distance code worked out once, then every year's rows, filtered
     * and cut to the first N, year after year.
     */
    method HandleSearchRequest(params: seq<string>) returns (emitted: seq<Row>)
      requires |params| >= Search.ParamCount
      ensures emitted == Search.SearchRows(retriever.data, params, speed)
    {
      var code := SearchDistanceParameter(params[Search.DistanceParam]);
      emitted := SearchYears(code, params, ParseInt(params[Search.FromYearParam]), ParseInt(params[Search.ToYearParam]));
    }

    /**
     * The comparison: the rows of both sides, and the number of rows of each side as
     * text.
     */
    method HandleCompareRequest(params: seq<string>) returns (rows1: seq<Row>, rows2: seq<Row>, totals: (string, string))
      requires |params| >= 4
      ensures (rows1, rows2) == Comparison(retriever.data, params, speed)
      ensures totals == (IntToString(|rows1|), IntToString(|rows2|))
    {
      var type1 := SearchDistanceParameter(params[0]);
      var year1 := params[1];
      var type2 := SearchDistanceParameter(params[2]);
      var year2 := params[3];
      var total1 := 0;
      var total2 := 0;
      rows1 := [];
      rows2 := [];
      if type1 != "All" && type2 != "All" {
        var data1 := retriever.GetSkiingData(ParseInt(year1), type1);
        var data2 := retriever.GetSkiingData(ParseInt(year2), type2);
        var cont1 := EmitRows(data1, type1);
        var cont2 := EmitRows(data2, type2);
        rows1, total1 := EmitCounted(cont1);
        rows2, total2 := EmitCounted(cont2);
      }
      totals := (IntToString(total1), IntToString(total2));
    }

    /** One year of the time progression: the year's rows of every race, filtered by name. */
    method YearTimesOf(year: int, forename: string, familyName: string) returns (times: seq<string>)
      requires TimesReadable(retriever.data)
      ensures times == TimesByYear(retriever.data, forename, familyName, speed, numberText)(year)
    {
      var rows := YearRowsOf(year, "all");
      YearRowsReadable(retriever.data, year, speed);
      FilteredRowsReadable(rows, NameFilters(forename, familyName));
      rows := FilterNames(rows, forename, familyName);
      times := CollectTimes(rows, numberText);
    }

    /** The years first..last of the time progression, year after year. */
    method TimesYears(forename: string, familyName: string, first: int, last: int) returns (times: seq<string>)
      requires TimesReadable(retriever.data)
      ensures times == OverYears(TimesByYear(retriever.data, forename, familyName, speed, numberText), first, last)
    {
      ghost var yearPart := TimesByYear(retriever.data, forename, familyName, speed, numberText);
      times := [];
      var year := first;
      while year <= last
        invariant first <= year && (year <= last + 1 || year == first)
        invariant times == OverYears(yearPart, first, year - 1)
        decreases last - year
      {
        var more := YearTimesOf(year, forename, familyName);
        times := times + more;
        year := year + 1;
      }
    }

    /**
     * The time progression of one athlete: with both names given, year, distance and
     * hours of each of the athlete's results, year after year; nothing otherwise.
     */
    method HandleTimesRequest(params: seq<string>) returns (times: seq<string>)
      requires |params| >= 4 && TimesReadable(retriever.data)
      ensures times == AthleteTimes(retriever.data, params, speed, numberText)
    {
      times := [];
      if |params[2]| > 0 && |params[3]| > 0 {
        times := TimesYears(params[2], params[3], ParseInt(params[0]), ParseInt(params[1]));
      }
    }

    /** The winners of one year's races, in ascending key order. */
    method YearWinnersOf(year: int, gender: string) returns (found: seq<Row>)
      ensures found == Rankings.YearWinners(retriever.data, gender, speed)(year)
    {
      var data := retriever.GetSkiingData(year, "");
      var keys := OrderedKeys(data.Keys);
      found := ScanRaces(data, keys, gender, speed);
    }

    /** The best athletes: the winners of every race of the years asked for, year after year. */
    method HandleBestAthleteRequest(params: seq<string>) returns (found: seq<Row>)
      requires |params| >= 3
      ensures found == Rankings.BestAthleteYears(retriever.data, ParseInt(params[0]), ParseInt(params[1]), params[2], speed)
    {
      var first := ParseInt(params[0]);
      var last := ParseInt(params[1]);
      ghost var yearPart := Rankings.YearWinners(retriever.data, params[2], speed);
      found := [];
      var year := first;
      while year <= last
        invariant first <= year && (year <= last + 1 || year == first)
        invariant found == OverYears(yearPart, first, year - 1)
        decreases last - year
      {
        var more := YearWinnersOf(year, params[2]);
        found := found + more;
        year := year + 1;
      }
    }

    /** The nationality distribution of one year: nationality -> number of participants. */
    method HandleCountriesRequest(param: string) returns (list: map<string, nat>)
      ensures list == Rankings.Countries(SkiingDataOf(retriever.data, ParseInt(param), ""))
    {
      var data := retriever.GetSkiingData(ParseInt(param), "");
      var keys := OrderedKeys(data.Keys);
      list := CountRaces(data, keys);
    }

    /** The teams of one race of one year, with their members' times. */
    method TeamsOf(year: int, race: string) returns (teams: Teams.TeamTimes)
      ensures teams == Teams.TeamTimesOf(Bucket(SkiingDataOf(retriever.data, year, ""), race))
    {
      var data := retriever.GetSkiingData(year, "");
      teams := CollectTeams(Bucket(data, race));
    }

    /** The team ranking of one race: the ten smallest combined times, in ascending order. */
    method HandleTeamsRequest(params: seq<string>) returns (rows: seq<seq<string>>)
      requires |params| >= 2 && Teams.TeamsReadable(TeamsOfRace(retriever.data, params))
      ensures rows == TeamRankingRows(retriever.data, params)
    {
      var race := SearchDistanceParameter(params[1]);
      var teams := TeamsOf(ParseInt(params[0]), race);
      rows := RankRace(teams, params[0], params[1]);
    }

    /**
     * The winners of the race from the first year counted to the last: the winner list
     * (name -> wins) and the winning times, in year order.
     */
    method CollectWinners(race: string) returns (winnerList: map<string, nat>, totalTime: seq<string>)
      ensures winnerList == Prediction.WinCounts(retriever.data, race)
      ensures totalTime == Prediction.Column(Prediction.Winners(retriever.data, race, Prediction.EndYear), "time")
    {
      ghost var db := retriever.data;
      winnerList := map[];
      totalTime := [];
      for year := Prediction.FirstYear to Prediction.EndYear
        invariant winnerList == Tally(Prediction.Column(Prediction.Winners(db, race, year), "name"))
        invariant totalTime == Prediction.Column(Prediction.Winners(db, race, year), "time")
      {
        var data := retriever.GetSkiingData(year, "");
        ghost var before := Prediction.Winners(db, race, year);
        assert Prediction.Winners(db, race, year + 1) == before + Prediction.YearWinner(db, race, year);
        if |Bucket(data, race)| > 0 {
          assert Prediction.YearWinner(db, race, year) == [Bucket(data, race)[0]];
          winnerList, totalTime := CountWinner(winnerList, totalTime, Bucket(data, race)[0], before);
        } else {
          assert Prediction.YearWinner(db, race, year) == [];
          assert before + [] == before;
        }
      }
    }

    /**
     * The prediction for one race: the winner with the most wins from 2014 to 2019, the
     * race text asked for, and the mean of the winning times.
     */
    method HandlePredictionRequest(param: string) returns (row: seq<string>)
      requires TimesReadable(retriever.data)
      ensures row == Prediction.PredictionRow(retriever.data, SearchDistanceParameter(param), param)
    {
      var race := SearchDistanceParameter(param);
      row := PredictRace(race, param);
    }

    /** The prediction row of the race code, with the race text asked for. */
    method PredictRace(race: string, param: string) returns (row: seq<string>)
      requires TimesReadable(retriever.data)
      ensures row == Prediction.PredictionRow(retriever.data, race, param)
    {
      var winnerList, totalTime := CollectWinners(race);
      var mostWins := ChooseMostWins(winnerList);
      Prediction.WinnerTimesReadable(retriever.data, race, Prediction.EndYear);
      var magicTime := AddHours(totalTime);
      var time := "";
      if |totalTime| > 0 {
        time := FormatHours(magicTime / |totalTime| as real);
      }
      row := [mostWins, param, time];
    }
  }
}
