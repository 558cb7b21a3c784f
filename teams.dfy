/**
 * The team ranking of one race: the times of each team's members, the combined time of
 * a team's first four members, and the ten teams with the smallest combined time texts.
 */
module Teams {
  import opened Text
  import opened TimeCodec
  import opened SkiStore
  import opened Tallies

  /** Team name -> the times of its members, in stored order. */
  type TeamTimes = map<string, seq<string>>

  /**
   * The times of each team of a race: a member of a team already listed adds its time,
   * a member of a new non-empty team starts the team's list, and a member without a
   * team is skipped.
   */
  function TeamTimesOf(bucket: seq<Record>): TeamTimes
    decreases |bucket|
  {
    if bucket == [] then map[]
    else
      var teams := TeamTimesOf(bucket[..|bucket| - 1]);
      var r := bucket[|bucket| - 1];
      var team := Field(r, "team");
      if team in teams then teams[team := teams[team] + [Field(r, "time")]]
      else if team != "" then teams[team := [Field(r, "time")]]
      else teams
  }

  /** The times of the members of one team, in stored order. */
  function TimesOfTeam(bucket: seq<Record>, team: string): seq<string>
    decreases |bucket|
  {
    if bucket == [] then []
    else
      var r := bucket[|bucket| - 1];
      TimesOfTeam(bucket[..|bucket| - 1], team) + (if Field(r, "team") == team then [Field(r, "time")] else [])
  }

  /** The teams listed are the non-empty team names of the race, each with all its members' times. */
  lemma {:induction false} TeamTimesAreMembersTimes(bucket: seq<Record>)
    ensures forall team :: team in TeamTimesOf(bucket) <==> team != "" && TimesOfTeam(bucket, team) != []
    ensures forall team :: team in TeamTimesOf(bucket) ==> TeamTimesOf(bucket)[team] == TimesOfTeam(bucket, team)
    decreases |bucket|
  {
    if bucket != [] {
      TeamTimesAreMembersTimes(bucket[..|bucket| - 1]);
    }
  }

  // ---------------------------------------------------------------------------
  // Combined times

  /** A time split into its four counters, each read with toInt. */
  datatype Clock = Clock(hours: int, minutes: int, seconds: int, hundredths: int)

  /** A time text with hours, minutes and seconds, which the ranking indexes unchecked. */
  predicate HasThreeParts(time: string)
  {
    |Split(time, ':')| >= 3
  }

  /**
   * The counters of a time text: hours, minutes, and seconds with hundredths after a
   * '.', or whole seconds and no hundredths.
   */
  function ReadClock(time: string): Clock
    requires HasThreeParts(time)
  {
    var parts := Split(time, ':');
    if '.' in parts[2] then
      SplitHasSeveralParts(parts[2], '.');
      var seconds := Split(parts[2], '.');
      Clock(ParseInt(parts[0]), ParseInt(parts[1]), ParseInt(seconds[0]), ParseInt(seconds[1]))
    else
      Clock(ParseInt(parts[0]), ParseInt(parts[1]), ParseInt(parts[2]), 0)
  }

  function Add(a: Clock, b: Clock): Clock
  {
    Clock(a.hours + b.hours, a.minutes + b.minutes, a.seconds + b.seconds, a.hundredths + b.hundredths)
  }

  /** The length of a clock in hundredths of a second. */
  function TotalHundredths(c: Clock): int
  {
    ((c.hours * 60 + c.minutes) * 60 + c.seconds) * 100 + c.hundredths
  }

  /** Hundredths into seconds, seconds into minutes, minutes into hours, with C++ division. */
  function Carry(c: Clock): Clock
  {
    var seconds := c.seconds + CDiv(c.hundredths, 100);
    var minutes := c.minutes + CDiv(seconds, 60);
    Clock(c.hours + CDiv(minutes, 60), CRem(minutes, 60), CRem(seconds, 60), CRem(c.hundredths, 100))
  }

  /** Carrying keeps the length of the clock. */
  lemma CarryKeepsTotal(c: Clock)
    ensures TotalHundredths(Carry(c)) == TotalHundredths(c)
  {
    var seconds := c.seconds + CDiv(c.hundredths, 100);
    var minutes := c.minutes + CDiv(seconds, 60);
    assert c.hundredths == CDiv(c.hundredths, 100) * 100 + CRem(c.hundredths, 100);
    assert seconds == CDiv(seconds, 60) * 60 + CRem(seconds, 60);
    assert minutes == CDiv(minutes, 60) * 60 + CRem(minutes, 60);
  }

  /** Carrying counters that are not negative leaves each below its unit. */
  lemma CarryBounds(c: Clock)
    requires c.hours >= 0 && c.minutes >= 0 && c.seconds >= 0 && c.hundredths >= 0
    ensures var r := Carry(c);
            r.hours >= 0 && 0 <= r.minutes < 60 && 0 <= r.seconds < 60 && 0 <= r.hundredths < 100
  {
  }

  /** hh:mm:ss.cc with each counter padded to two digits when below ten. */
  function ClockText(c: Clock): string
  {
    Pad(c.hours) + ":" + Pad(c.minutes) + ":" + Pad(c.seconds) + "." + Pad(c.hundredths)
  }

  /** The four first members of a team have readable times. */
  predicate FirstFourReadable(times: seq<string>)
  {
    |times| >= 4 && forall i :: 0 <= i < 4 ==> HasThreeParts(times[i])
  }

  /** The counters of the first four members of a team added up and carried. */
  function CombinedClock(times: seq<string>): Clock
    requires FirstFourReadable(times)
  {
    Carry(Add(Add(Add(ReadClock(times[0]), ReadClock(times[1])), ReadClock(times[2])), ReadClock(times[3])))
  }

  /** The combined time text of the first four members of a team. */
  function CombinedTime(times: seq<string>): string
    requires FirstFourReadable(times)
  {
    ClockText(CombinedClock(times))
  }

  /** A combined time text has a ':' and so reads back as a time. */
  lemma CombinedTimeReadable(times: seq<string>)
    requires FirstFourReadable(times)
    ensures InDomain(CombinedTime(times))
  {
    var c := CombinedClock(times);
    var t := ClockText(c);
    assert t[|Pad(c.hours)|] == ':';
    SplitHasSeveralParts(t, ':');
  }

  /** toInt reads the counters of "1:00:45.50". */
  lemma ReadLeg(leg: string)
    requires leg == "1:00:45.50"
    ensures HasThreeParts(leg)
    ensures ReadClock(leg) == Clock(1, 0, 45, 50)
  {
    assert leg == Join(["1", "00", "45.50"], ':');
    SplitJoin(["1", "00", "45.50"], ':');
    assert "45.50" == Join(["45", "50"], '.');
    SplitJoin(["45", "50"], '.');
    assert '.' in "45.50";
    ReadSmallCounters();
  }

  /** toInt reads the four counter texts of "1:00:45.50"; kept apart to keep ReadLeg's proof small. */
  lemma ReadSmallCounters()
    ensures ParseInt("1") == 1 && ParseInt("00") == 0 && ParseInt("45") == 45 && ParseInt("50") == 50
  {
    assert Unsigned("1") == "1" && DigitsValue("1") == 1;
    assert Unsigned("00") == "00" && DigitsValue("0") == 0 && DigitsValue("00") == 0;
    assert Unsigned("45") == "45" && DigitsValue("4") == 4;
    assert Unsigned("50") == "50" && DigitsValue("5") == 5;
  }

  /** 4:00:180.200, four times 1:00:45.50, carries to 4:03:02.00. */
  lemma CarryFourLegs()
    ensures Carry(Clock(4, 0, 180, 200)) == Clock(4, 3, 2, 0)
  {
    assert CDiv(200, 100) == 2 && CRem(200, 100) == 0;
    assert CDiv(182, 60) == 3 && CRem(182, 60) == 2;
    assert CDiv(3, 60) == 0 && CRem(3, 60) == 3;
  }

  /** 4:03:02.00 prints with every counter padded to two digits. */
  lemma PrintFourLegs()
    ensures ClockText(Clock(4, 3, 2, 0)) == "04:03:02.00"
  {
    assert IntToString(4) == "4" && IntToString(3) == "3" && IntToString(2) == "2" && IntToString(0) == "0";
  }

  /** Four legs with the same counters combine to four times those counters, carried. */
  lemma SameLegsCombine(legs: seq<string>, leg: Clock)
    requires |legs| == 4 && forall i | 0 <= i < 4 :: HasThreeParts(legs[i]) && ReadClock(legs[i]) == leg
    ensures FirstFourReadable(legs)
    ensures CombinedClock(legs) == Carry(Add(Add(Add(leg, leg), leg), leg))
  {
  }

  /** Four legs of 1:00:45.50 make 04:03:02.00. */
  lemma FourLegsCombine(legs: seq<string>)
    requires |legs| == 4 && forall i | 0 <= i < 4 :: legs[i] == "1:00:45.50"
    ensures FirstFourReadable(legs)
    ensures CombinedClock(legs) == Clock(4, 3, 2, 0)
    ensures CombinedTime(legs) == "04:03:02.00"
  {
    forall i | 0 <= i < 4 ensures HasThreeParts(legs[i]) && ReadClock(legs[i]) == Clock(1, 0, 45, 50) {
      ReadLeg(legs[i]);
    }
    SameLegsCombine(legs, Clock(1, 0, 45, 50));
    SumOfLegs(Clock(1, 0, 45, 50));
    CarryFourLegs();
    PrintFourLegs();
  }

  /** The four legs of FourLegsCombine add up to 4:00:180.200. */
  lemma SumOfLegs(leg: Clock)
    requires leg == Clock(1, 0, 45, 50)
    ensures Add(Add(Add(leg, leg), leg), leg) == Clock(4, 0, 180, 200)
  {
  }

  // ---------------------------------------------------------------------------
  // The ranking

  /** Every team with four members has readable times for the first four. */
  predicate TeamsReadable(teams: TeamTimes)
  {
    forall team | team in teams && |teams[team]| >= 4 :: FirstFourReadable(teams[team])
  }

  /**
   * The first team of the listing whose member times are exactly the given ones, or ""
   * when there is none, as a hash's lookup of a key by value does.
   */
  function KeyOf(teams: TeamTimes, order: seq<string>, times: seq<string>): string
    decreases |order|
  {
    if order == [] then ""
    else if order[0] in teams && teams[order[0]] == times then order[0]
    else KeyOf(teams, order[1..], times)
  }

  /** A lookup for a listed team's times finds a team with the same times, no later in the listing. */
  lemma {:induction false} KeyOfFindsTeam(teams: TeamTimes, order: seq<string>, team: string)
    requires team in teams && team in order
    ensures KeyOf(teams, order, teams[team]) in teams
    ensures teams[KeyOf(teams, order, teams[team])] == teams[team]
    decreases |order|
  {
    if order[0] != team && !(order[0] in teams && teams[order[0]] == teams[team]) {
      KeyOfFindsTeam(teams, order[1..], team);
    }
  }

  /** A map filled by inserting the pairs in order: a later pair replaces an earlier one with its key. */
  function Inserted(pairs: seq<(string, string)>): map<string, string>
    decreases |pairs|
  {
    if pairs == [] then map[]
    else Inserted(pairs[..|pairs| - 1])[pairs[|pairs| - 1].0 := pairs[|pairs| - 1].1]
  }

  /** Every key of the map comes from its last pair with that key. */
  lemma {:induction false} InsertedLast(pairs: seq<(string, string)>, key: string) returns (p: nat)
    requires key in Inserted(pairs)
    ensures p < |pairs| && pairs[p].0 == key && Inserted(pairs)[key] == pairs[p].1
    ensures forall l | p < l < |pairs| :: pairs[l].0 != key
    decreases |pairs|
  {
    var front := pairs[..|pairs| - 1];
    if pairs[|pairs| - 1].0 == key {
      p := |pairs| - 1;
    } else {
      p := InsertedLast(front, key);
      assert forall l | p < l < |front| :: pairs[l] == front[l];
    }
  }

  /** Every pair's key is in the map. */
  lemma {:induction false} InsertedCovers(pairs: seq<(string, string)>, p: nat)
    requires p < |pairs|
    ensures pairs[p].0 in Inserted(pairs)
    decreases |pairs|
  {
    if p < |pairs| - 1 {
      InsertedCovers(pairs[..|pairs| - 1], p);
    }
  }

  /** A listed team has four members or more, so its first four times are combined. */
  predicate Qualifies(teams: TeamTimes, team: string)
  {
    team in teams && |teams[team]| >= 4
  }

  /**
   * The listed teams with four members or more, in listing order, each as its combined
   * time and the name found by looking the team's times up in the listing.
   */
  function RankingPairs(teams: TeamTimes, order: seq<string>, listed: seq<string>): seq<(string, string)>
    requires forall k | k in listed :: k in teams
    requires TeamsReadable(teams)
    decreases |listed|
  {
    if listed == [] then []
    else
      var times := teams[listed[|listed| - 1]];
      RankingPairs(teams, order, listed[..|listed| - 1])
        + (if |times| >= 4 then [(CombinedTime(times), KeyOf(teams, order, times))] else [])
  }

  /**
   * Combined time -> team: the pairs inserted in listing order, so that a later team
   * with the same combined time replaces an earlier one.
   */
  function Ranking(teams: TeamTimes, order: seq<string>, listed: seq<string>): map<string, string>
    requires forall k | k in listed :: k in teams
    requires TeamsReadable(teams)
  {
    Inserted(RankingPairs(teams, order, listed))
  }

  /** One more listed team inserts its combined time, if it has four members. */
  lemma RankingNext(teams: TeamTimes, order: seq<string>, listed: seq<string>, team: string)
    requires forall k | k in listed :: k in teams
    requires team in teams && TeamsReadable(teams)
    ensures forall k | k in listed + [team] :: k in teams
    ensures Ranking(teams, order, listed + [team]) ==
            if |teams[team]| >= 4 then Ranking(teams, order, listed)[CombinedTime(teams[team]) := KeyOf(teams, order, teams[team])]
            else Ranking(teams, order, listed)
  {
    var longer := listed + [team];
    assert longer[..|listed|] == listed && longer[|longer| - 1] == team;
    var pairs := RankingPairs(teams, order, listed);
    if |teams[team]| >= 4 {
      var p := (CombinedTime(teams[team]), KeyOf(teams, order, teams[team]));
      assert RankingPairs(teams, order, longer) == pairs + [p];
      assert (pairs + [p])[..|pairs|] == pairs;
    } else {
      assert RankingPairs(teams, order, longer) == pairs;
    }
  }

  /** Every pair belongs to a listed team with four members. */
  lemma {:induction false} RankingPairOfTeam(teams: TeamTimes, order: seq<string>, listed: seq<string>, p: nat)
    returns (j: nat)
    requires forall k | k in listed :: k in teams
    requires TeamsReadable(teams)
    requires p < |RankingPairs(teams, order, listed)|
    ensures j < |listed| && Qualifies(teams, listed[j])
    ensures RankingPairs(teams, order, listed)[p] == (CombinedTime(teams[listed[j]]), KeyOf(teams, order, teams[listed[j]]))
    decreases |listed|
  {
    var front := listed[..|listed| - 1];
    if p < |RankingPairs(teams, order, front)| {
      j := RankingPairOfTeam(teams, order, front, p);
      assert listed[j] == front[j];
    } else {
      j := |listed| - 1;
    }
  }

  /** Every listed team with four members has its pair. */
  lemma {:induction false} TeamHasRankingPair(teams: TeamTimes, order: seq<string>, listed: seq<string>, j: nat)
    returns (p: nat)
    requires forall k | k in listed :: k in teams
    requires TeamsReadable(teams)
    requires j < |listed| && Qualifies(teams, listed[j])
    ensures p < |RankingPairs(teams, order, listed)|
    ensures RankingPairs(teams, order, listed)[p] == (CombinedTime(teams[listed[j]]), KeyOf(teams, order, teams[listed[j]]))
    decreases |listed|
  {
    var front := listed[..|listed| - 1];
    if j < |listed| - 1 {
      p := TeamHasRankingPair(teams, order, front, j);
      assert listed[j] == front[j];
    } else {
      p := |RankingPairs(teams, order, front)|;
    }
  }

  /** Every listed team with four members has its combined time in the ranking. */
  lemma RankingCoversTeams(teams: TeamTimes, order: seq<string>, listed: seq<string>, j: nat)
    requires forall k | k in listed :: k in teams
    requires TeamsReadable(teams)
    requires j < |listed| && Qualifies(teams, listed[j])
    ensures CombinedTime(teams[listed[j]]) in Ranking(teams, order, listed)
  {
    var p := TeamHasRankingPair(teams, order, listed, j);
    InsertedCovers(RankingPairs(teams, order, listed), p);
  }

  /** Every team of the ranking is a real team whose first four combine to its key. */
  lemma RankingTeamsQualify(teams: TeamTimes, order: seq<string>, key: string)
    requires forall k | k in order :: k in teams
    requires TeamsReadable(teams)
    requires key in Ranking(teams, order, order)
    ensures Qualifies(teams, Ranking(teams, order, order)[key])
    ensures CombinedTime(teams[Ranking(teams, order, order)[key]]) == key
  {
    var p := InsertedLast(RankingPairs(teams, order, order), key);
    var j := RankingPairOfTeam(teams, order, order, p);
    KeyOfFindsTeam(teams, order, order[j]);
  }

  /** Every key of the ranking reads back as a time. */
  lemma RankingKeysReadable(teams: TeamTimes, order: seq<string>, listed: seq<string>, key: string)
    requires forall k | k in listed :: k in teams
    requires TeamsReadable(teams)
    requires key in Ranking(teams, order, listed)
    ensures InDomain(key)
  {
    var p := InsertedLast(RankingPairs(teams, order, listed), key);
    var j := RankingPairOfTeam(teams, order, listed, p);
    CombinedTimeReadable(teams[listed[j]]);
  }

  // ---------------------------------------------------------------------------
  // The rows

  /** The number of teams the ranking shows. */
  const TopCount: nat := 10

  /**
   * The row of the team at a 0-based place: place counted from 1, team, year text,
   * distance text, combined time, and the average leg time.
   */
  function TeamRow(top: map<string, string>, keys: seq<string>, place: nat, year: string, distance: string): seq<string>
    requires place < |keys| && keys[place] in top && InDomain(keys[place])
  {
    [IntToString(place + 1), top[keys[place]], year, distance, keys[place], FormatHours(TimeToHours(keys[place]) / 4.0)]
  }

  /** The row of each place of the listed combined times; a place outside them has no row. */
  function RowOfPlace(top: map<string, string>, keys: seq<string>, year: string, distance: string): int -> seq<string>
  {
    place => if 0 <= place < |keys| && keys[place] in top && InDomain(keys[place])
             then TeamRow(top, keys, place, year, distance) else []
  }

  /** The rows of the first places of the listed combined times. */
  function TeamRows(top: map<string, string>, keys: seq<string>, count: nat, year: string, distance: string): (rows: seq<seq<string>>)
    requires count <= |keys|
    requires forall k | k in keys :: k in top && InDomain(k)
    ensures |rows| == count
    ensures forall i | 0 <= i < count :: |rows[i]| == 6
  {
    seq(count, RowOfPlace(top, keys, year, distance))
  }

  /** The values of one place more: the value of that place appended. */
  lemma PlacesGrow<T>(count: nat, at: int -> T)
    ensures seq(count + 1, at) == seq(count, at) + [at(count)]
  {
  }

  /** Row i of the rows holds place i + 1, the i-th combined time and its team. */
  lemma TeamRowsAt(top: map<string, string>, keys: seq<string>, count: nat, year: string, distance: string, i: nat)
    requires count <= |keys|
    requires forall k | k in keys :: k in top && InDomain(k)
    requires i < count
    ensures TeamRows(top, keys, count, year, distance)[i][0] == IntToString(i + 1)
    ensures TeamRows(top, keys, count, year, distance)[i][1] == top[keys[i]]
    ensures TeamRows(top, keys, count, year, distance)[i][4] == keys[i]
  {
    assert TeamRows(top, keys, count, year, distance)[i] == TeamRow(top, keys, i, year, distance);
  }

  /** The number of rows shown: all teams, but at most ten. */
  function Shown(top: map<string, string>): nat
  {
    if |top| < TopCount then |top| else TopCount
  }

  /** The rows of the ranking: its combined times in ascending order, at most ten of them. */
  ghost function TeamRanking(top: map<string, string>, year: string, distance: string): seq<seq<string>>
    requires forall k | k in top :: InDomain(k)
  {
    var keys := SortedKeys(top.Keys);
    SortedKeysEnumerates(top.Keys);
    TeamRows(top, keys, Shown(top), year, distance)
  }

  /** At most ten rows: all the teams when there are fewer. */
  lemma TeamRankingCount(top: map<string, string>, year: string, distance: string)
    requires forall k | k in top :: InDomain(k)
    ensures |TeamRanking(top, year, distance)| == Shown(top) <= TopCount
    ensures |top| <= TopCount ==> |TeamRanking(top, year, distance)| == |top|
  {
  }

  /** Row i holds place i + 1, a combined time of the ranking and the team stored for it. */
  lemma TeamRankingRow(top: map<string, string>, year: string, distance: string, i: nat)
    requires forall k | k in top :: InDomain(k)
    requires i < |TeamRanking(top, year, distance)|
    ensures var row := TeamRanking(top, year, distance)[i];
            row[0] == IntToString(i + 1) && row[4] in top && row[1] == top[row[4]]
  {
    var keys := SortedKeys(top.Keys);
    SortedKeysEnumerates(top.Keys);
    TeamRowsAt(top, keys, Shown(top), year, distance, i);
  }

  /** The rows are in strictly ascending order of the combined time text. */
  lemma TeamRankingAscending(top: map<string, string>, year: string, distance: string, i: nat, j: nat)
    requires forall k | k in top :: InDomain(k)
    requires i < j < |TeamRanking(top, year, distance)|
    ensures StrLt(TeamRanking(top, year, distance)[i][4], TeamRanking(top, year, distance)[j][4])
  {
    var keys := SortedKeys(top.Keys);
    SortedKeysEnumerates(top.Keys);
    TeamRowsAt(top, keys, Shown(top), year, distance, i);
    TeamRowsAt(top, keys, Shown(top), year, distance, j);
  }

  /** A combined time left out of the rows comes after all ten shown. */
  lemma TeamRankingLeast(top: map<string, string>, year: string, distance: string, k: string)
    requires forall k | k in top :: InDomain(k)
    requires k in top
    requires forall i | 0 <= i < |TeamRanking(top, year, distance)| :: TeamRanking(top, year, distance)[i][4] != k
    ensures |TeamRanking(top, year, distance)| == TopCount
    ensures StrLt(TeamRanking(top, year, distance)[TopCount - 1][4], k)
  {
    var keys := SortedKeys(top.Keys);
    SortedKeysEnumerates(top.Keys);
    var rows := TeamRanking(top, year, distance);
    var p :| 0 <= p < |keys| && keys[p] == k;
    if p < |rows| {
      TeamRowsAt(top, keys, Shown(top), year, distance, p);
      assert false;
    }
    TeamRowsAt(top, keys, Shown(top), year, distance, TopCount - 1);
  }
}
