/**
 * What the analyser computes for the best-athlete and the nationality questions:
 * the winners of a year's races for one gender, and the number of participants of
 * each nationality in a year.
 */
module Rankings {
  import opened Text
  import opened SkiStore
  import opened AnalyzerRows
  import opened Tallies

  // ---------------------------------------------------------------------------
  // Best athletes

  /**
   * A record counts for the chosen gender: for "Male" the overall winner who is a man,
   * for "Female" the winner among women; any other gender matches nothing.
   */
  predicate Qualifies(r: Record, gender: string)
  {
    if gender == "Male" then Field(r, "placement") == "1" && Field(r, "sex") == "M"
    else gender == "Female" && Field(r, "placementFemale") == "1"
  }

  /**
   * The row of a winner: the record's own distance text, and the average speed over
   * the kilometre digits of the race key.
   */
  function BestRow(r: Record, digits: string, speed: SpeedText): Row
  {
    var time := Field(r, "time");
    [Field(r, "year"), Field(r, "distance"), time, Field(r, "placement"), Field(r, "sex"), Field(r, "name"),
     Field(r, "locality"), Field(r, "nationality"), Field(r, "birthYear"), Field(r, "team"), speed(digits, time)]
  }

  /**
   * The rows of the qualifying records of one race from index i on. The key text is
   * stripped to its digits in place when the first winner is found, so the scan goes
   * on in the bucket of the stripped key, which is empty unless such a key exists.
   */
  function BucketScan(data: SkiingData, key: string, i: nat, gender: string, speed: SpeedText): seq<Row>
    decreases if Digits(key) == key then 0 else 1, |Bucket(data, key)| - i
  {
    var bucket := Bucket(data, key);
    if i >= |bucket| then []
    else if Qualifies(bucket[i], gender) then
      var stripped := Digits(key);
      DigitsOfDigits(stripped);
      [BestRow(bucket[i], stripped, speed)] + BucketScan(data, stripped, i + 1, gender, speed)
    else BucketScan(data, key, i + 1, gender, speed)
  }

  /** The rows of every qualifying record of a bucket, in stored order. */
  function QualifyingRows(bucket: seq<Record>, digits: string, gender: string, speed: SpeedText): seq<Row>
    decreases |bucket|
  {
    if bucket == [] then []
    else
      (if Qualifies(bucket[0], gender) then [BestRow(bucket[0], digits, speed)] else [])
        + QualifyingRows(bucket[1..], digits, gender, speed)
  }

  /** The winners of the listed races of one year, race after race. */
  function YearBest(data: SkiingData, keys: seq<string>, gender: string, speed: SpeedText): seq<Row>
    decreases |keys|
  {
    if keys == [] then []
    else YearBest(data, keys[..|keys| - 1], gender, speed) + BucketScan(data, keys[|keys| - 1], 0, gender, speed)
  }

  /** The winners of one year, races in ascending key order. */
  ghost function YearWinners(db: Database, gender: string, speed: SpeedText): int -> seq<Row>
  {
    year => var data := SkiingDataOf(db, year, ""); YearBest(data, SortedKeys(data.Keys), gender, speed)
  }

  /** The winners of every year from `from` to `to`. */
  ghost function BestAthleteYears(db: Database, from: int, to: int, gender: string, speed: SpeedText): seq<Row>
  {
    OverYears(YearWinners(db, gender, speed), from, to)
  }

  /** A gender other than "Male" and "Female" finds nobody. */
  lemma {:induction false} ScanOfOtherGender(data: SkiingData, key: string, i: nat, gender: string, speed: SpeedText)
    requires gender != "Male" && gender != "Female"
    ensures BucketScan(data, key, i, gender, speed) == []
    decreases |Bucket(data, key)| - i
  {
    if i < |Bucket(data, key)| {
      ScanOfOtherGender(data, key, i + 1, gender, speed);
    }
  }

  /**
   * Every row of a scan is the row of a qualifying record, found in the race's bucket
   * or in the bucket of its stripped key.
   */
  lemma {:induction false} ScanRowsQualify(data: SkiingData, key: string, i: nat, gender: string, speed: SpeedText, row: Row)
    requires row in BucketScan(data, key, i, gender, speed)
    ensures exists k, j :: (k == key || k == Digits(key)) && 0 <= j < |Bucket(data, k)|
              && Qualifies(Bucket(data, k)[j], gender) && row == BestRow(Bucket(data, k)[j], Digits(key), speed)
    decreases if Digits(key) == key then 0 else 1, |Bucket(data, key)| - i
  {
    var bucket := Bucket(data, key);
    var stripped := Digits(key);
    DigitsOfDigits(stripped);
    if Qualifies(bucket[i], gender) {
      if row != BestRow(bucket[i], stripped, speed) {
        ScanRowsQualify(data, stripped, i + 1, gender, speed, row);
      }
    } else {
      ScanRowsQualify(data, key, i + 1, gender, speed, row);
    }
  }

  /** The rows of the men's question are rows of overall winners who are men. */
  lemma MaleRowsAreMenWhoWon(data: SkiingData, key: string, speed: SpeedText, row: Row)
    requires row in BucketScan(data, key, 0, "Male", speed)
    ensures row[PlacementColumn] == "1" && row[SexColumn] == "M"
  {
    ScanRowsQualify(data, key, 0, "Male", speed, row);
  }

  /** A race whose key is all digits gives every qualifying record. */
  lemma {:induction false} ScanOfDigitKey(data: SkiingData, key: string, i: nat, gender: string, speed: SpeedText)
    requires AllDigits(key) && i <= |Bucket(data, key)|
    ensures BucketScan(data, key, i, gender, speed) == QualifyingRows(Bucket(data, key)[i..], key, gender, speed)
    decreases |Bucket(data, key)| - i
  {
    var bucket := Bucket(data, key);
    DigitsOfDigits(key);
    if i < |bucket| {
      ScanOfDigitKey(data, key, i + 1, gender, speed);
      assert bucket[i..][1..] == bucket[i + 1..];
    }
  }

  /**
   * A race whose key has a letter, and whose stripped key names no race, gives only its
   * first qualifying record.
   */
  lemma {:induction false} ScanFindsFirstWinnerOnly(data: SkiingData, key: string, i: nat, gender: string, speed: SpeedText)
    requires Digits(key) != key && Digits(key) !in data && i <= |Bucket(data, key)|
    ensures var all := QualifyingRows(Bucket(data, key)[i..], Digits(key), gender, speed);
            BucketScan(data, key, i, gender, speed) == if all == [] then [] else [all[0]]
    decreases |Bucket(data, key)| - i
  {
    var bucket := Bucket(data, key);
    if i < |bucket| {
      assert bucket[i..][1..] == bucket[i + 1..];
      if !Qualifies(bucket[i], gender) {
        ScanFindsFirstWinnerOnly(data, key, i + 1, gender, speed);
      }
    }
  }

  // ---------------------------------------------------------------------------
  // Nationalities

  /** The nationality texts of a bucket, in stored order. */
  function BucketNationalities(bucket: seq<Record>): (ns: seq<string>)
    ensures |ns| == |bucket|
  {
    seq(|bucket|, j requires 0 <= j < |bucket| => Field(bucket[j], "nationality"))
  }

  /** The nationality texts of the listed races, race after race. */
  function Nationalities(data: SkiingData, keys: seq<string>): seq<string>
    decreases |keys|
  {
    if keys == [] then []
    else Nationalities(data, keys[..|keys| - 1]) + BucketNationalities(Bucket(data, keys[|keys| - 1]))
  }

  /** There is one nationality text per participant of the listed races. */
  lemma {:induction false} NationalitiesCount(data: SkiingData, keys: seq<string>)
    ensures |Nationalities(data, keys)| == BucketSizes(data, keys)
    decreases |keys|
  {
    if keys != [] {
      NationalitiesCount(data, keys[..|keys| - 1]);
    }
  }

  /** The nationality distribution of one year: nationality -> number of participants. */
  ghost function Countries(data: SkiingData): map<string, nat>
  {
    Tally(Nationalities(data, SortedKeys(data.Keys)))
  }

  /**
   * Each nationality of the year's participants has as its count the number of
   * participants with it, and the counts add up to the number of participants.
   */
  lemma CountriesCountParticipants(data: SkiingData, ks: seq<string>)
    requires Enumerates(ks, Countries(data).Keys)
    ensures forall n :: n in Countries(data) <==> n in Nationalities(data, SortedKeys(data.Keys))
    ensures forall n :: n in Countries(data) ==>
              Countries(data)[n] == Occurrences(Nationalities(data, SortedKeys(data.Keys)), n)
    ensures SumOver(Countries(data), ks) == BucketSizes(data, SortedKeys(data.Keys))
  {
    var ns := Nationalities(data, SortedKeys(data.Keys));
    TallyCounts(ns);
    TallySum(ns, ks);
    NationalitiesCount(data, SortedKeys(data.Keys));
  }
}
