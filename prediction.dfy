/**
 * The winner prediction for one race: the winners of the races of 2014 to 2019, the
 * winner with the most wins, and the mean of the winning times.
 */
module Prediction {
  import opened Text
  import opened TimeCodec
  import opened SkiStore
  import opened Tallies

  /** The first year whose winner counts. */
  const FirstYear: int := 2014
  /** The year after the last one whose winner counts. */
  const EndYear: int := 2020

  /** The winner of a race in one year: the first stored record of its bucket, if any. */
  function YearWinner(db: Database, race: string, year: int): seq<Record>
  {
    var bucket := Bucket(SkiingDataOf(db, year, ""), race);
    if |bucket| > 0 then [bucket[0]] else []
  }

  /** The winners of the race from the first year up to the year before `end`, in year order. */
  function Winners(db: Database, race: string, end: int): seq<Record>
    decreases end - FirstYear
  {
    if end <= FirstYear then [] else Winners(db, race, end - 1) + YearWinner(db, race, end - 1)
  }

  /** Every winner is the winner of some year of the range. */
  lemma {:induction false} WinnersAreYearWinners(db: Database, race: string, end: int, i: nat) returns (year: int)
    requires i < |Winners(db, race, end)|
    ensures FirstYear <= year < end
    ensures YearWinner(db, race, year) == [Winners(db, race, end)[i]]
    decreases end - FirstYear
  {
    var front := Winners(db, race, end - 1);
    var last := YearWinner(db, race, end - 1);
    assert Winners(db, race, end) == front + last;
    if i < |front| {
      year := WinnersAreYearWinners(db, race, end - 1, i);
      assert Winners(db, race, end)[i] == front[i];
    } else {
      year := end - 1;
      assert |last| == 1;
    }
  }

  /** There is at most one winner per year. */
  lemma {:induction false} WinnersCount(db: Database, race: string, end: int)
    ensures |Winners(db, race, end)| <= if end <= FirstYear then 0 else end - FirstYear
    decreases end - FirstYear
  {
    if end > FirstYear {
      WinnersCount(db, race, end - 1);
    }
  }

  /** One field of every record, in order; a missing field reads as "". */
  function Column(rs: seq<Record>, field: string): (vs: seq<string>)
    ensures |vs| == |rs|
  {
    seq(|rs|, i requires 0 <= i < |rs| => Field(rs[i], field))
  }

  /** A count read the way a hash's value() does: a missing name counts 0. */
  function Count(counts: map<string, nat>, name: string): nat
  {
    if name in counts then counts[name] else 0
  }

  /**
   * The name chosen over the listed names: the first one replaces "", and a later one
   * replaces the current choice only with strictly more wins.
   */
  function MostWins(counts: map<string, nat>, keys: seq<string>): string
    decreases |keys|
  {
    if keys == [] then ""
    else
      var current := MostWins(counts, keys[..|keys| - 1]);
      var k := keys[|keys| - 1];
      if current == "" then k
      else if Count(counts, k) > Count(counts, current) then k
      else current
  }

  /**
   * Over names that are not "", the choice is the first name with the most wins: it is
   * listed, no name has more wins, and every name before it has fewer.
   */
  lemma {:induction false} MostWinsIsFirstMaximal(counts: map<string, nat>, keys: seq<string>) returns (i: nat)
    requires keys != [] && "" !in keys
    ensures i < |keys| && keys[i] == MostWins(counts, keys)
    ensures forall j | 0 <= j < |keys| :: Count(counts, keys[j]) <= Count(counts, keys[i])
    ensures forall j | 0 <= j < i :: Count(counts, keys[j]) < Count(counts, keys[i])
    decreases |keys|
  {
    var front := keys[..|keys| - 1];
    var last := |keys| - 1;
    if front == [] {
      i := 0;
    } else {
      assert "" !in front;
      var f := MostWinsIsFirstMaximal(counts, front);
      if Count(counts, keys[last]) > Count(counts, keys[f]) {
        i := last;
      } else {
        i := f;
      }
    }
  }

  /**
   * A name "" listed first does not count: the choice is the same as over the rest of
   * the list, whatever the number of wins of "".
   */
  lemma {:induction false} MostWinsSkipsEmptyName(counts: map<string, nat>, keys: seq<string>)
    requires keys != [] && keys[0] == ""
    ensures MostWins(counts, keys) == MostWins(counts, keys[1..])
    decreases |keys|
  {
    if |keys| > 1 {
      var front := keys[..|keys| - 1];
      MostWinsSkipsEmptyName(counts, front);
      assert front[1..] == keys[1..][..|keys| - 2];
    }
  }

  /**
   * Over any listing of the names, in whatever order a hash gives them, provided ""
   * is not listed after the first place: the choice is "" exactly when no other name
   * is listed; otherwise it is the first listed name with the most wins among the
   * names other than "".
   */
  lemma ChoiceOverAnyListing(counts: map<string, nat>, ks: seq<string>) returns (w: string, i: nat)
    requires forall n :: n in ks <==> n in counts
    requires forall j | 0 < j < |ks| :: ks[j] != ""
    ensures w == MostWins(counts, ks)
    ensures w == "" <==> counts.Keys <= {""}
    ensures w != "" ==> i < |ks| && ks[i] == w && w in counts
    ensures forall n | n in counts && n != "" :: w in counts && counts[n] <= counts[w]
    ensures w != "" ==> forall j | 0 <= j < i && ks[j] != "" :: Count(counts, ks[j]) < Count(counts, w)
  {
    var skip := NamesOfListing(counts, ks);
    var rest := ks[skip..];
    if rest == [] {
      w, i := "", 0;
    } else {
      var r := MostWinsIsFirstMaximal(counts, rest);
      w, i := rest[r], r + skip;
      forall n | n in counts && n != "" ensures counts[n] <= counts[w] {
        var j :| 0 <= j < |rest| && rest[j] == n;
      }
      forall j | 0 <= j < i && ks[j] != "" ensures Count(counts, ks[j]) < Count(counts, w) {
        assert rest[j - skip] == ks[j];
      }
    }
  }

  /** A listing with "" at most in first place: past that place it lists the other names. */
  lemma NamesOfListing(counts: map<string, nat>, ks: seq<string>) returns (skip: nat)
    requires forall n :: n in ks <==> n in counts
    requires forall j | 0 < j < |ks| :: ks[j] != ""
    ensures skip <= |ks| && (skip == 1 <==> ks != [] && ks[0] == "") && skip <= 1
    ensures MostWins(counts, ks) == MostWins(counts, ks[skip..])
    ensures forall n :: n in ks[skip..] <==> n in counts && n != ""
  {
    skip := if ks != [] && ks[0] == "" then 1 else 0;
    if skip == 1 {
      MostWinsSkipsEmptyName(counts, ks);
    }
    forall n ensures n in ks[skip..] <==> n in counts && n != "" {
      if n in counts && n != "" {
        var j :| 0 <= j < |ks| && ks[j] == n;
        assert ks[skip..][j - skip] == n;
      }
    }
  }

  /**
   * Under hash order a "" name listed after another name takes part in the choice:
   * its wins can make it the choice, and the next name then replaces it whatever
   * its wins.
   */
  lemma EmptyNameListedLater()
    ensures MostWins(map["A" := 2, "" := 3, "B" := 1], ["A", "", "B"]) == "B"
    ensures MostWins(map["A" := 1, "" := 2], ["A", ""]) == ""
  {
    var counts := map["A" := 2, "" := 3, "B" := 1];
    assert ["A", "", "B"][..2] == ["A", ""];
    assert ["A", ""][..1] == ["A"];
    assert ["A"][..0] == [];
    assert MostWins(counts, ["A"]) == "A";
    assert MostWins(counts, ["A", ""]) == "";
  }

  /** The winner list: name -> number of races won in the years counted. */
  function WinCounts(db: Database, race: string): map<string, nat>
  {
    Tally(Column(Winners(db, race, EndYear), "name"))
  }

  /** The predicted winner: the choice over the winners' names in ascending order. */
  ghost function PredictedWinner(db: Database, race: string): string
  {
    var counts := WinCounts(db, race);
    MostWins(counts, SortedKeys(counts.Keys))
  }

  /**
   * The names of a count map in ascending order, without "": "" always comes first
   * when it is a name, so dropping it leaves the other names in order.
   */
  lemma NamesAfterEmpty(counts: map<string, nat>) returns (rest: seq<string>)
    ensures MostWins(counts, SortedKeys(counts.Keys)) == MostWins(counts, rest)
    ensures forall n :: n in rest <==> n in counts && n != ""
    ensures forall a, b | 0 <= a < b < |rest| :: StrLt(rest[a], rest[b])
  {
    var keys := SortedKeys(counts.Keys);
    SortedKeysEnumerates(counts.Keys);
    if "" in counts {
      var j :| 0 <= j < |keys| && keys[j] == "";
      NothingBeforeEmpty(keys[0]);
      assert j == 0;
      MostWinsSkipsEmptyName(counts, keys);
      rest := keys[1..];
      forall n ensures n in rest <==> n in counts && n != "" {
        if n in counts && n != "" {
          var k :| 0 <= k < |keys| && keys[k] == n;
          assert rest[k - 1] == n;
        }
        if n in rest {
          var k :| 0 <= k < |rest| && rest[k] == n;
          assert StrLt(keys[0], keys[k + 1]);
        }
      }
      forall a, b | 0 <= a < b < |rest| ensures StrLt(rest[a], rest[b]) {
        assert StrLt(keys[a + 1], keys[b + 1]);
      }
    } else {
      rest := keys;
    }
  }

  /**
   * Over the names of a count map in ascending order, the choice is "" exactly when no
   * other name is listed; otherwise it is a name with the most wins among the names
   * other than "", and among those with as many wins, the one that comes first.
   */
  lemma ChoiceHasMostWins(counts: map<string, nat>) returns (w: string)
    ensures w == MostWins(counts, SortedKeys(counts.Keys))
    ensures w == "" <==> counts.Keys <= {""}
    ensures w != "" ==> w in counts
    ensures forall n | n in counts && n != "" :: w in counts && counts[n] <= counts[w]
    ensures forall n | n in counts && n != "" && n != w :: counts[n] == counts[w] ==> StrLt(w, n)
  {
    var rest := NamesAfterEmpty(counts);
    if rest == [] {
      w := "";
    } else {
      assert "" !in rest;
      var i := MostWinsIsFirstMaximal(counts, rest);
      w := rest[i];
      forall n | n in counts && n != "" ensures counts[n] <= counts[w] && (n != w && counts[n] == counts[w] ==> StrLt(w, n)) {
        var j :| 0 <= j < |rest| && rest[j] == n;
        assert Count(counts, rest[j]) <= Count(counts, rest[i]);
        if j < i {
          assert Count(counts, rest[j]) < Count(counts, rest[i]);
        }
      }
    }
  }

  /**
   * The predicted winner is "" only when no winner has another name (a winner record
   * without a name field reads as ""); otherwise it is a winner with the most wins
   * among those with a name, and among those with as many wins, the one that comes first.
   */
  lemma PredictedWinnerHasMostWins(db: Database, race: string)
    ensures PredictedWinner(db, race) == "" <==> WinCounts(db, race).Keys <= {""}
    ensures PredictedWinner(db, race) != "" ==> PredictedWinner(db, race) in WinCounts(db, race)
    ensures forall n | n in WinCounts(db, race) && n != "" ::
              PredictedWinner(db, race) in WinCounts(db, race) &&
              WinCounts(db, race)[n] <= WinCounts(db, race)[PredictedWinner(db, race)]
    ensures forall n | n in WinCounts(db, race) && n != "" && n != PredictedWinner(db, race) ::
              WinCounts(db, race)[n] == WinCounts(db, race)[PredictedWinner(db, race)] ==>
              StrLt(PredictedWinner(db, race), n)
  {
    var w := ChoiceHasMostWins(WinCounts(db, race));
  }

  /** Each winner's count is the number of years the winner won. */
  lemma WinCountsCountWins(db: Database, race: string)
    ensures forall n :: n in WinCounts(db, race) <==> n in Column(Winners(db, race, EndYear), "name")
    ensures forall n | n in WinCounts(db, race) :: WinCounts(db, race)[n] == Occurrences(Column(Winners(db, race, EndYear), "name"), n)
  {
    TallyCounts(Column(Winners(db, race, EndYear), "name"));
  }

  // ---------------------------------------------------------------------------
  // The predicted time

  /** The sum of the hours of the times. */
  function SumHours(times: seq<string>): real
    requires forall i | 0 <= i < |times| :: InDomain(times[i])
    decreases |times|
  {
    if times == [] then 0.0 else SumHours(times[..|times| - 1]) + TimeToHours(times[|times| - 1])
  }

  /** The winners' times read back from the store are readable times. */
  lemma WinnerTimesReadable(db: Database, race: string, end: int)
    requires TimesReadable(db)
    ensures forall i | 0 <= i < |Column(Winners(db, race, end), "time")| :: InDomain(Column(Winners(db, race, end), "time")[i])
  {
    forall i | 0 <= i < |Column(Winners(db, race, end), "time")| ensures InDomain(Column(Winners(db, race, end), "time")[i]) {
      var year := WinnersAreYearWinners(db, race, end, i);
      LookupTimesReadable(db, year, "");
      var data := SkiingDataOf(db, year, "");
      assert race in data && data[race][0] in data[race];
    }
  }

  /**
   * The prediction row: the predicted winner, the race text asked for, and the mean of
   * the winning times; the time is "" when the race had no winner.
   */
  ghost function PredictionRow(db: Database, race: string, param: string): seq<string>
    requires TimesReadable(db)
  {
    var times := Column(Winners(db, race, EndYear), "time");
    WinnerTimesReadable(db, race, EndYear);
    [PredictedWinner(db, race), param, if times == [] then "" else FormatHours(SumHours(times) / |times| as real)]
  }

  /** A race with no winner in the years counted predicts nobody and no time. */
  lemma NoWinnerPredictsNobody(db: Database, race: string, param: string)
    requires TimesReadable(db) && Winners(db, race, EndYear) == []
    ensures PredictionRow(db, race, param) == ["", param, ""]
  {
    SortedKeysEnumerates(WinCounts(db, race).Keys);
  }
}
