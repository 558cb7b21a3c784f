/**
 * The rows the analyser emits for search results: eleven texts built from one
 * stored record, and the name splitter the name filters use.
 */
module AnalyzerRows {
  import opened Text
  import opened SkiStore

  /** The number of texts in a result row. */
  const RowWidth: nat := 11

  /**
   * A result row: year, distance, time, placement, sex, name, locality,
   * nationality, birth year, team, average speed.
   */
  type Row = r: seq<string> | |r| == RowWidth witness seq(RowWidth, _ => "")

  const YearColumn: nat := 0
  const DistanceColumn: nat := 1
  const TimeColumn: nat := 2
  const PlacementColumn: nat := 3
  const SexColumn: nat := 4
  const NameColumn: nat := 5
  const LocalityColumn: nat := 6
  const NationalityColumn: nat := 7
  const TeamColumn: nat := 9

  /**
   * The average-speed text for the kilometre digits of a distance and a time text:
   * a float division formatted by the number-to-text conversion, outside this model.
   */
  type SpeedText = (string, string) -> string

  /** A text with every character that is not a decimal digit removed. */
  function Digits(s: string): (r: string)
    ensures AllDigits(r) && |r| <= |s|
    ensures |s| == 1 ==> r == if IsDigit(s[0]) then s else []
    decreases |s|
  {
    if s == [] then []
    else (if IsDigit(s[0]) then [s[0]] else []) + Digits(s[1..])
  }

  /**
   * Removing the non-digits works piece by piece: together with the one-character
   * case, the digits of a text are exactly its digit characters, in their order.
   */
  lemma {:induction false} DigitsAppend(a: string, b: string)
    ensures Digits(a + b) == Digits(a) + Digits(b)
    decreases |a|
  {
    if a == [] {
      assert a + b == b;
    } else {
      var head := if IsDigit(a[0]) then [a[0]] else [];
      assert (a + b)[0] == a[0] && (a + b)[1..] == a[1..] + b;
      assert Digits(a + b) == head + Digits(a[1..] + b);
      DigitsAppend(a[1..], b);
      var front, back := Digits(a[1..]), Digits(b);
      assert head + (front + back) == (head + front) + back;
    }
  }

  /** Removing the non-digits of a text of digits changes nothing. */
  lemma {:induction false} DigitsOfDigits(s: string)
    requires AllDigits(s)
    ensures Digits(s) == s
    decreases |s|
  {
    if s != [] {
      DigitsOfDigits(s[1..]);
      assert s == [s[0]] + s[1..];
    }
  }

  /** A text with a character that is not a digit loses it. */
  lemma {:induction false} DigitsDropsNonDigit(s: string, i: nat)
    requires i < |s| && !IsDigit(s[i])
    ensures Digits(s) != s
    decreases |s|
  {
    if i > 0 {
      DigitsDropsNonDigit(s[1..], i - 1);
    }
  }

  /**
   * The row of one record of the bucket named key: the bucket's key is the row's
   * distance, and the speed is "not available" for a record without a time.
   */
  function CreateEmit(r: Record, key: string, speed: SpeedText): Row
  {
    var time := Field(r, "time");
    var average := if time != "" then speed(Digits(Field(r, "distance")), time) else "not available";
    [Field(r, "year"), key, time, Field(r, "placement"), Field(r, "sex"), Field(r, "name"),
     Field(r, "locality"), Field(r, "nationality"), Field(r, "birthYear"), Field(r, "team"), average]
  }

  /**
   * The name split at spaces: the two words when there are exactly two, otherwise
   * the first word and "". The family name comes first, the forename second.
   */
  function SplitName(name: string): (parts: seq<string>)
    ensures |parts| == 2
  {
    var list := Split(name, ' ');
    if |list| == 2 then [list[0], list[1]] else [list[0], ""]
  }

  /** A two-word name splits into its two words. */
  lemma SplitNameOfTwoWords(family: string, fore: string)
    requires ' ' !in family && ' ' !in fore
    ensures SplitName(family + " " + fore) == [family, fore]
  {
    SplitAfterPart(family, ' ', fore);
    SplitWithoutSep(fore, ' ');
    assert family + " " + fore == family + [' '] + fore;
  }

  /** A one-word name is the family name, with an empty forename. */
  lemma SplitNameOfOneWord(family: string)
    requires ' ' !in family
    ensures SplitName(family) == [family, ""]
  {
    SplitWithoutSep(family, ' ');
  }

  /** A name of three words keeps only the first and an empty forename. */
  lemma SplitNameOfThreeWords(a: string, b: string, c: string)
    requires ' ' !in a && ' ' !in b && ' ' !in c
    ensures SplitName(a + " " + b + " " + c) == [a, ""]
  {
    SplitAfterPart(b, ' ', c);
    SplitWithoutSep(c, ' ');
    assert a + " " + b + " " + c == a + [' '] + (b + [' '] + c);
    SplitAfterPart(a, ' ', b + [' '] + c);
  }

  /** The rows of one bucket, in stored order. */
  function BucketRows(bucket: seq<Record>, key: string, speed: SpeedText): (rows: seq<Row>)
    ensures |rows| == |bucket|
  {
    seq(|bucket|, j requires 0 <= j < |bucket| => CreateEmit(bucket[j], key, speed))
  }

  /** The rows of the named buckets, bucket after bucket. */
  function RowsOfKeys(data: SkiingData, keys: seq<string>, speed: SpeedText): seq<Row>
    decreases |keys|
  {
    if keys == [] then []
    else
      var key := keys[|keys| - 1];
      RowsOfKeys(data, keys[..|keys| - 1], speed) + BucketRows(Bucket(data, key), key, speed)
  }

  /**
   * The rows a year's search starts from: the bucket of the distance code, or for
   * "all" every bucket of the year, taken in ascending key order.
   */
  ghost function YearRows(db: Database, year: int, code: string, speed: SpeedText): seq<Row>
  {
    if code != "all" then
      BucketRows(Bucket(SkiingDataOf(db, year, code), code), code, speed)
    else
      var data := SkiingDataOf(db, year, "");
      RowsOfKeys(data, SortedKeys(data.Keys), speed)
  }

  /** What a handler emits over the years from..to: each year's part, year after year. */
  function OverYears<T>(yearPart: int -> seq<T>, from: int, to: int): seq<T>
    decreases if to < from then 0 else to - from + 1
  {
    if to < from then [] else OverYears(yearPart, from, to - 1) + yearPart(to)
  }

  /** Every row over the named buckets is the row of a record of one of them. */
  lemma {:induction false} RowsOfKeysComeFromRecords(data: SkiingData, keys: seq<string>, speed: SpeedText, row: Row)
    requires row in RowsOfKeys(data, keys, speed)
    ensures exists k, j :: k in keys && 0 <= j < |Bucket(data, k)| && row == CreateEmit(Bucket(data, k)[j], k, speed)
    decreases |keys|
  {
    var key := keys[|keys| - 1];
    var front := keys[..|keys| - 1];
    if row in RowsOfKeys(data, front, speed) {
      RowsOfKeysComeFromRecords(data, front, speed, row);
      var k, j :| k in front && 0 <= j < |Bucket(data, k)| && row == CreateEmit(Bucket(data, k)[j], k, speed);
      assert k in keys;
    } else {
      var rows := BucketRows(Bucket(data, key), key, speed);
      assert row in rows;
      var j :| 0 <= j < |rows| && rows[j] == row;
      assert key in keys;
    }
  }

  /** The number of rows over the named buckets is the sum of their sizes. */
  function BucketSizes(data: SkiingData, keys: seq<string>): nat
    decreases |keys|
  {
    if keys == [] then 0 else BucketSizes(data, keys[..|keys| - 1]) + |Bucket(data, keys[|keys| - 1])|
  }

  lemma {:induction false} RowsOfKeysCount(data: SkiingData, keys: seq<string>, speed: SpeedText)
    ensures |RowsOfKeys(data, keys, speed)| == BucketSizes(data, keys)
    decreases |keys|
  {
    if keys != [] {
      RowsOfKeysCount(data, keys[..|keys| - 1], speed);
    }
  }
}
