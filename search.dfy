/**
 * The search query: per year, the rows of the chosen distance (or of every
 * distance) go through the filters whose parameter is not at its default, one
 * after the other, and the first N survivors are emitted.
 */
module Search {
  import opened Text
  import opened TimeCodec
  import opened SkiStore
  import opened DistanceTable
  import opened AnalyzerRows

  /** The twelve search parameters, in the order the query form passes them. */
  const ParamCount: nat := 12
  const FromYearParam: nat := 0
  const ToYearParam: nat := 1
  const DistanceParam: nat := 2
  const ForenameParam: nat := 3
  const FamilyNameParam: nat := 4
  const GenderParam: nat := 5
  const TeamParam: nat := 6
  const NationalityParam: nat := 7
  const LocalityParam: nat := 8
  const TopParam: nat := 9
  const TimeFromParam: nat := 10
  const TimeToParam: nat := 11

  /** One filter of the chain, with the value it compares against. */
  datatype Filter =
    | Forename(name: string)
    | FamilyName(name: string)
    | Sex(code: string)
    | Team(team: string)
    | Nationality(nationality: string)
    | Locality(locality: string)
    | TimeFrom(hours: real)
    | TimeTo(hours: real)

  /**
   * Whether a row passes a filter: names, team, nationality and locality compare
   * lower-cased, the sex code exactly, the time limits inclusively. A time of four
   * or more characters without ':' passes no time limit: timeToInt would read past
   * the end of its split there, which the model does not follow.
   */
  predicate Matches(row: Row, f: Filter)
  {
    match f
    case Forename(name) => ToLower(SplitName(row[NameColumn])[1]) == ToLower(name)
    case FamilyName(name) => ToLower(SplitName(row[NameColumn])[0]) == ToLower(name)
    case Sex(code) => row[SexColumn] == code
    case Team(team) => ToLower(row[TeamColumn]) == ToLower(team)
    case Nationality(n) => ToLower(row[NationalityColumn]) == ToLower(n)
    case Locality(l) => ToLower(row[LocalityColumn]) == ToLower(l)
    case TimeFrom(hours) => InDomain(row[TimeColumn]) && TimeToHours(row[TimeColumn]) >= hours
    case TimeTo(hours) => InDomain(row[TimeColumn]) && TimeToHours(row[TimeColumn]) <= hours
  }

  /** The sex code a gender choice compares with: "M", "F", or "" for anything else. */
  function SexCode(gender: string): string
  {
    if gender == "Male" then "M" else if gender == "Female" then "F" else ""
  }

  /** One filter when its parameter is not at its default, none otherwise. */
  function When(active: bool, f: Filter): (fs: seq<Filter>)
    ensures |fs| <= 1
  {
    if active then [f] else []
  }

  /**
   * The filters of the parameters not at their default ("", "Both", "0", "All"),
   * in the order the query applies them: first those on the athlete, then those on
   * the origin and the time.
   */
  function ActiveFilters(params: seq<string>): (fs: seq<Filter>)
    requires |params| >= ParamCount
    ensures |fs| <= 8
  {
    AthleteFilters(params) + OriginAndTimeFilters(params)
  }

  /** The filters on the athlete: forename, family name, sex, team. */
  function AthleteFilters(params: seq<string>): (fs: seq<Filter>)
    requires |params| >= ParamCount
    ensures |fs| <= 4
  {
    When(params[ForenameParam] != "", Forename(params[ForenameParam])) +
    When(params[FamilyNameParam] != "", FamilyName(params[FamilyNameParam])) +
    When(params[GenderParam] != "Both", Sex(SexCode(params[GenderParam]))) +
    When(params[TeamParam] != "", Team(params[TeamParam]))
  }

  /** The filters on the origin and the time: nationality, locality, the time limits. */
  function OriginAndTimeFilters(params: seq<string>): (fs: seq<Filter>)
    requires |params| >= ParamCount
    ensures |fs| <= 4
  {
    When(params[NationalityParam] != "", Nationality(params[NationalityParam])) +
    When(params[LocalityParam] != "", Locality(params[LocalityParam])) +
    When(params[TimeFromParam] != "0", TimeFrom(ParseReal(params[TimeFromParam]))) +
    When(params[TimeToParam] != "All", TimeTo(ParseReal(params[TimeToParam])))
  }

  /** The parameters at their defaults: no filter, every row. */
  predicate AllDefaults(params: seq<string>)
    requires |params| >= ParamCount
  {
    params[ForenameParam] == "" && params[FamilyNameParam] == "" && params[GenderParam] == "Both" &&
    params[TeamParam] == "" && params[NationalityParam] == "" && params[LocalityParam] == "" &&
    params[TimeFromParam] == "0" && params[TimeToParam] == "All" && params[TopParam] == "All"
  }

  /** One filter pass: the rows that match, in their order. */
  function Keep(rows: seq<Row>, f: Filter): (kept: seq<Row>)
    ensures |kept| <= |rows|
    decreases |rows|
  {
    if rows == [] then []
    else (if Matches(rows[0], f) then [rows[0]] else []) + Keep(rows[1..], f)
  }

  /** The filter chain, one pass per filter. */
  function ApplyFilters(rows: seq<Row>, fs: seq<Filter>): seq<Row>
    decreases |fs|
  {
    if fs == [] then rows else ApplyFilters(Keep(rows, fs[0]), fs[1..])
  }

  /** A row passes every filter of the list. */
  predicate MatchesAll(row: Row, fs: seq<Filter>)
  {
    forall i :: 0 <= i < |fs| ==> Matches(row, fs[i])
  }

  /** The reference selection: the rows that pass every filter, in their order. */
  function Selected(rows: seq<Row>, fs: seq<Filter>): seq<Row>
    decreases |rows|
  {
    if rows == [] then []
    else (if MatchesAll(rows[0], fs) then [rows[0]] else []) + Selected(rows[1..], fs)
  }

  /** The rows emitted: all of them for "All", otherwise at most the first N. */
  function Top(rows: seq<Row>, top: string): seq<Row>
  {
    if top == "All" then rows
    else
      var n := ParseInt(top);
      if n <= 0 then [] else if n < |rows| then rows[..n] else rows
  }

  /**
   * The rows one year of the search emits, for the distance code and the filters
   * worked out once from the parameters: the year's rows, filtered, cut to the first N.
   */
  ghost function SearchYear(db: Database, year: int, code: string, fs: seq<Filter>, top: string, speed: SpeedText): seq<Row>
  {
    Top(ApplyFilters(YearRows(db, year, code, speed), fs), top)
  }

  /** The search's part of each year. */
  ghost function YearSearch(db: Database, code: string, fs: seq<Filter>, top: string, speed: SpeedText): int -> seq<Row>
  {
    year => SearchYear(db, year, code, fs, top, speed)
  }

  /**
   * The rows the whole search emits: the years from..to, year after year, for the
   * code of the chosen distance and the filters of the parameters not at their default.
   */
  ghost function SearchRows(db: Database, params: seq<string>, speed: SpeedText): seq<Row>
    requires |params| >= ParamCount
  {
    var code := SearchDistanceParameter(params[DistanceParam]);
    OverYears(YearSearch(db, code, ActiveFilters(params), params[TopParam], speed),
              ParseInt(params[FromYearParam]), ParseInt(params[ToYearParam]))
  }

  // ---------------------------------------------------------------------------
  // Order-preserving subsequences

  /** a is b with some elements left out, the others in their order. */
  predicate IsSubsequence<T(==)>(a: seq<T>, b: seq<T>)
    decreases |b|
  {
    if a == [] then true
    else if b == [] then false
    else (a[0] == b[0] && IsSubsequence(a[1..], b[1..])) || IsSubsequence(a, b[1..])
  }

  /** Every element of a subsequence is an element of the whole. */
  lemma {:induction false} SubsequenceMembers<T>(a: seq<T>, b: seq<T>, x: T)
    requires IsSubsequence(a, b) && x in a
    ensures x in b
    decreases |b|
  {
    if a[0] == b[0] && IsSubsequence(a[1..], b[1..]) {
      if x != a[0] {
        SubsequenceMembers(a[1..], b[1..], x);
      }
    } else {
      SubsequenceMembers(a, b[1..], x);
    }
  }

  /** A prefix of a subsequence is a subsequence. */
  lemma {:induction false} PrefixOfSubsequence<T>(a: seq<T>, b: seq<T>, n: nat)
    requires IsSubsequence(a, b) && n <= |a|
    ensures IsSubsequence(a[..n], b)
    decreases |b|
  {
    if n > 0 {
      if a[0] == b[0] && IsSubsequence(a[1..], b[1..]) {
        PrefixOfSubsequence(a[1..], b[1..], n - 1);
        assert a[..n][1..] == a[1..][..n - 1];
      } else {
        PrefixOfSubsequence(a, b[1..], n);
      }
    }
  }

  /** The reference selection is an order-preserving subsequence of the rows. */
  lemma {:induction false} SelectedIsSubsequence(rows: seq<Row>, fs: seq<Filter>)
    ensures IsSubsequence(Selected(rows, fs), rows)
    decreases |rows|
  {
    if rows != [] {
      SelectedIsSubsequence(rows[1..], fs);
      var s := Selected(rows, fs);
      if MatchesAll(rows[0], fs) {
        assert s[0] == rows[0] && s[1..] == Selected(rows[1..], fs);
      } else if s != [] {
        assert s == Selected(rows[1..], fs);
        assert IsSubsequence(s, rows[1..]);
      }
    }
  }

  /** The reference selection keeps exactly the rows that pass every filter. */
  lemma {:induction false} SelectedMembers(rows: seq<Row>, fs: seq<Filter>)
    ensures forall x :: x in Selected(rows, fs) <==> x in rows && MatchesAll(x, fs)
    decreases |rows|
  {
    if rows != [] {
      SelectedMembers(rows[1..], fs);
      assert rows == [rows[0]] + rows[1..];
    }
  }

  /** Filtering a selection once more selects by both. */
  lemma {:induction false} KeepOfSelected(rows: seq<Row>, f: Filter, fs: seq<Filter>)
    ensures Selected(Keep(rows, f), fs) == Selected(rows, [f] + fs)
    decreases |rows|
  {
    if rows != [] {
      KeepOfSelected(rows[1..], f, fs);
      var x := rows[0];
      assert MatchesAll(x, [f] + fs) <==> Matches(x, f) && MatchesAll(x, fs) by {
        if Matches(x, f) && MatchesAll(x, fs) {
          forall i | 0 <= i < |[f] + fs| ensures Matches(x, ([f] + fs)[i]) {
            if i > 0 { assert ([f] + fs)[i] == fs[i - 1]; }
          }
        }
        if MatchesAll(x, [f] + fs) {
          assert ([f] + fs)[0] == f;
          forall i | 0 <= i < |fs| ensures Matches(x, fs[i]) {
            assert ([f] + fs)[i + 1] == fs[i];
          }
        }
      }
      if Matches(x, f) {
        assert Keep(rows, f) == [x] + Keep(rows[1..], f);
        assert Keep(rows, f)[1..] == Keep(rows[1..], f);
      } else {
        assert Keep(rows, f) == Keep(rows[1..], f);
        assert Selected(rows, [f] + fs) == Selected(rows[1..], [f] + fs);
      }
    }
  }

  /** No filter selects everything. */
  lemma {:induction false} SelectedByNothing(rows: seq<Row>)
    ensures Selected(rows, []) == rows
    decreases |rows|
  {
    if rows != [] {
      SelectedByNothing(rows[1..]);
      assert rows == [rows[0]] + rows[1..];
    }
  }

  /** The filter chain selects the same rows as all its filters at once. */
  lemma {:induction false} ChainSelects(rows: seq<Row>, fs: seq<Filter>)
    ensures ApplyFilters(rows, fs) == Selected(rows, fs)
    decreases |fs|
  {
    if fs == [] {
      SelectedByNothing(rows);
    } else {
      ChainSelects(Keep(rows, fs[0]), fs[1..]);
      KeepOfSelected(rows, fs[0], fs[1..]);
      assert [fs[0]] + fs[1..] == fs;
    }
  }

  /** The emitted rows are a prefix of the filtered ones: all of them for "All", otherwise the first min(N, count) for a limit N. */
  lemma TopIsPrefix(rows: seq<Row>, top: string)
    ensures Top(rows, top) <= rows
    ensures top == "All" ==> Top(rows, top) == rows
    ensures top != "All" ==> |Top(rows, top)| <= if ParseInt(top) < 0 then 0 else ParseInt(top)
    ensures top != "All" && ParseInt(top) > 0 ==>
              Top(rows, top) == rows[..if ParseInt(top) < |rows| then ParseInt(top) else |rows|]
    ensures top != "All" && ParseInt(top) <= 0 ==> Top(rows, top) == []
  {
  }

  /**
   * One year of the search: the emitted rows are an order-preserving subsequence
   * of the year's rows, every one passes every filter, and with no limit every row
   * that passes them is emitted.
   */
  lemma SearchYearSelects(db: Database, year: int, code: string, fs: seq<Filter>, top: string, speed: SpeedText)
    ensures var rows := YearRows(db, year, code, speed);
            var out := SearchYear(db, year, code, fs, top, speed);
            IsSubsequence(out, rows) &&
            (forall x :: x in out ==> MatchesAll(x, fs)) &&
            (top == "All" ==> forall x :: x in rows && MatchesAll(x, fs) ==> x in out)
  {
    var rows := YearRows(db, year, code, speed);
    var chosen := Selected(rows, fs);
    ChainSelects(rows, fs);
    SelectedIsSubsequence(rows, fs);
    SelectedMembers(rows, fs);
    var out := Top(chosen, top);
    TopIsPrefix(chosen, top);
    PrefixOfSubsequence(chosen, rows, |out|);
    assert out == chosen[..|out|];
    forall x | x in out ensures MatchesAll(x, fs) {
      assert x in chosen;
    }
  }

  /** With every parameter at its default, a year emits all its rows. */
  lemma DefaultsEmitAll(db: Database, year: int, code: string, params: seq<string>, speed: SpeedText)
    requires |params| >= ParamCount && AllDefaults(params)
    ensures SearchYear(db, year, code, ActiveFilters(params), params[TopParam], speed) == YearRows(db, year, code, speed)
  {
    assert ActiveFilters(params) == [];
  }
}
