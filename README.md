# SkiingAnalyzer in Dafny

A verified model of the core of SkiingAnalyzer. This Qt application downloads the
results of the Finlandia-hiihto ski marathon from the race's result archive, keeps them
in a JSON store, answers seven kinds of questions about them and shows the answers in
sortable tables. The model covers three classes:

- **`SkiDataRetriever`** (`retriever.dfy`, `scraper.dfy`, `store.dfy`). It keeps the store
  (year, then distance code, then the list of records, each a string-to-string map). It
  reads the store from the cache file, or fetches it. A fetch makes one entry-page request
  for the two hidden form tokens, then one results-page request per year since 1974.
  `HandlePostReply` scrapes a results page into distance buckets: it stops at the first
  missing row id, reads 12 cells per row, and stores `&nbsp;` as "". In anonymous mode it
  redacts three fields and hashes three more. The request counters form a completion
  barrier. `GetSkiingData` hands out one year of data.
- **`SkiAnalyzer`** (`analyzer.dfy`, with the specifications in `search.dfy`,
  `rankings.dfy`, `teams.dfy`, `prediction.dfy`, `rows.dfy`, `distances.dfy`,
  `timecodec.dfy` and `tally.dfy`). It answers seven questions:
  - search: a chain of order-preserving filters plus a per-year top N;
  - compare two races;
  - one athlete's times;
  - the best athletes;
  - the nationality distribution;
  - the four-skier team ranking;
  - the winner prediction.

  It also has the building blocks these share: the label-to-code table, `timeToInt`,
  `floatToTimeString`, `splitName` and the 11-field row builder. Each handler is a method
  that returns what it would have emitted. Each method is proved equal to a specification
  function, and the lemmas state what those functions mean.
- **`SkiModel`** (`skimodel.dfy`). The table model behind the views: a width-guarded
  append, clear, the Qt accessors, and the insertion sort on sortable columns. The sort is
  proved to give an ordered permutation that reverses rows with equal keys.

`options.dfy` holds an `Option` type. `text.dfy` models the Qt string operations the
source uses:
- `indexOf` is the least match at or after a position, or -1;
- `split`, `toLower` and `left`;
- `toInt` and `toFloat` are digit parsers that give 0 on anything else;
- C++ `/` and `%` truncate toward zero;
- `QString::number`;
- the `QString` ordering, which orders `QMap` keys.

Source quirks that the model reproduces as written:
- `floatToTimeString` prints the minutes twice, because `avgmin/60` is an integer
  division (`TimeCodec.SecondsRepeatMinutes`).
- The compare guard tests for `"All"`, which the distance table never returns
  (`DistanceTable.SearchDistanceParameterAgreesWithTable`).
- Best athlete strips the race key to its digits in place. The scan of that race then
  continues in the bucket of the stripped key (`Rankings.BucketScan`).
- Team ranking keys a `QMap` by the combined time, so teams with equal totals collapse
  into one entry. A team is found back from its times with `QHash::key`.
- The table sort inserts before the first row whose key is `<=` (or `>=`), so it is not
  stable.

## Model

| member | source | states |
|---|---|---|
| DistanceTable.SearchDistanceParameterAgreesWithTable | SkiingAnalyzer/skianalyzer.cpp:525-609 | a label's code is the code of its first entry in the table, "" exactly for labels not in the table, and never "All" |
| DistanceTable.FirstCodeIsFirstMatch | SkiingAnalyzer/skianalyzer.cpp:525-609 | the if-chain over a table returns the first matching entry's code, and "" iff no entry matches |
| DistanceTable.CodesOfTheTable | SkiingAnalyzer/skianalyzer.cpp:525-609 | no code in the table is "" or "All" |
| DistanceTable.TraditionalThirtyTwo | SkiingAnalyzer/skianalyzer.cpp:536-538 | "32km traditional" gives "P32" (its second entry is never reached) |
| DistanceTable.FreestyleThirtyTwo | SkiingAnalyzer/skianalyzer.cpp:542-544 | "32km freestyle" gives "V32" |
| DistanceTable.FreestyleThirtyTwoOf2014 | SkiingAnalyzer/skianalyzer.cpp:554-556 | "32km freestyle (2014)" also gives "V32" |
| DistanceTable.AllTypes | SkiingAnalyzer/skianalyzer.cpp:605-607 | "All types" gives the lower-case "all" |
| TimeCodec.TimeToHours | SkiingAnalyzer/skianalyzer.cpp:638-641 | a time shorter than 4 characters reads as 0 hours |
| TimeCodec.HoursOfThreeParts | SkiingAnalyzer/skianalyzer.cpp:650-664 | "h:m:s" is readable and reads as h + m/60 + s/3600 |
| TimeCodec.HoursOfTwoParts | SkiingAnalyzer/skianalyzer.cpp:656-664 | "m:s" is readable and reads as m/60 + s/3600 |
| TimeCodec.FractionalSecondsCount | SkiingAnalyzer/skianalyzer.cpp:661-664 | "1:00:45.50" reads as 1 + 45.5/3600 hours: the seconds part is read as a decimal |
| TimeCodec.TruncToInt | SkiingAnalyzer/skianalyzer.cpp:612-614 | float-to-int conversion truncates toward zero |
| TimeCodec.SecondsRepeatMinutes | SkiingAnalyzer/skianalyzer.cpp:611-633 | the formatted time is hours:minutes:minutes, with minutes between -59 and 59 |
| TimeCodec.PadWidth | SkiingAnalyzer/skianalyzer.cpp:620-628 | every field is at least 2 characters, and starts with '0' iff its value is below 10 |
| TimeCodec.FormatOfReadTime | SkiingAnalyzer/skianalyzer.cpp:611-633 | a time of h hours, m minutes and s seconds prints as its padded hours, then its minutes twice |
| AnalyzerRows.Digits | SkiingAnalyzer/skianalyzer.cpp:684 | only digits and never longer; a one-character text is kept exactly when it is a digit and otherwise dropped |
| AnalyzerRows.DigitsAppend | SkiingAnalyzer/skianalyzer.cpp:684 | stripping distributes over concatenation, so with the one-character case it keeps exactly the digit characters of the text, in their order |
| AnalyzerRows.DigitsOfDigits | SkiingAnalyzer/skianalyzer.cpp:304 | a key that is already all digits is left unchanged by stripping |
| AnalyzerRows.DigitsDropsNonDigit | SkiingAnalyzer/skianalyzer.cpp:304 | a key with a non-digit is changed by stripping |
| AnalyzerRows.SplitName | SkiingAnalyzer/skianalyzer.cpp:707-721 | the split always has two parts |
| AnalyzerRows.SplitNameOfTwoWords | SkiingAnalyzer/skianalyzer.cpp:712-715 | "family fore" splits into [family, fore] |
| AnalyzerRows.SplitNameOfOneWord | SkiingAnalyzer/skianalyzer.cpp:716-719 | a single word gives [word, ""] |
| AnalyzerRows.SplitNameOfThreeWords | SkiingAnalyzer/skianalyzer.cpp:716-719 | three words give [first, ""] |
| AnalyzerRows.BucketRows | SkiingAnalyzer/skianalyzer.cpp:42-45 | one row per record of the bucket |
| AnalyzerRows.RowsOfKeysComeFromRecords | SkiingAnalyzer/skianalyzer.cpp:48-56 | every row of a year is the row built from some record of a listed race |
| AnalyzerRows.RowsOfKeysCount | SkiingAnalyzer/skianalyzer.cpp:48-56 | a year has as many rows as its listed races have records |
| Search.ActiveFilters | SkiingAnalyzer/skianalyzer.cpp:58-155 | at most one filter per criterion, eight criteria |
| Search.Keep | SkiingAnalyzer/skianalyzer.cpp:60-69 | a filter never adds rows |
| Search.SelectedIsSubsequence | SkiingAnalyzer/skianalyzer.cpp:58-155 | the filtered rows are an order-preserving subsequence of the year's rows |
| Search.SelectedMembers | SkiingAnalyzer/skianalyzer.cpp:58-155 | a row is kept iff it is one of the year's rows and matches every active filter |
| Search.KeepOfSelected | SkiingAnalyzer/skianalyzer.cpp:58-155 | filtering by one criterion, then by the rest, is selecting by all of them |
| Search.ChainSelects | SkiingAnalyzer/skianalyzer.cpp:58-155 | the filter-by-filter chain equals a single selection by all active filters |
| Search.TopIsPrefix | SkiingAnalyzer/skianalyzer.cpp:157-167 | the shown rows are a prefix of the filtered rows: all of them for "All", exactly the first min(N, count) for a limit N > 0, and none for a limit that reads as 0 or less |
| Search.SearchYearSelects | SkiingAnalyzer/skianalyzer.cpp:37-168 | a year's output is a subsequence of its rows, each matching every active filter, and with "All" every matching row is shown |
| Search.DefaultsEmitAll | SkiingAnalyzer/skianalyzer.cpp:58-167 | with every parameter at its default, every row of the year is shown |
| Rankings.ScanOfOtherGender | SkiingAnalyzer/skianalyzer.cpp:292-345 | a gender other than "Male" and "Female" finds nobody |
| Rankings.ScanRowsQualify | SkiingAnalyzer/skianalyzer.cpp:290-346 | every row found is built from a qualifying record of the race's bucket or of its stripped key's bucket |
| Rankings.MaleRowsAreMenWhoWon | SkiingAnalyzer/skianalyzer.cpp:292-317 | the men's rows have placement "1" and sex "M" |
| Rankings.ScanOfDigitKey | SkiingAnalyzer/skianalyzer.cpp:290-346 | a race whose key is all digits gives the rows of all its qualifying records, in order |
| Rankings.ScanFindsFirstWinnerOnly | SkiingAnalyzer/skianalyzer.cpp:304 | a race whose key has a non-digit, and whose stripped key names no race, gives only its first qualifying record |
| Rankings.BucketNationalities | SkiingAnalyzer/skianalyzer.cpp:362-369 | one nationality per record |
| Rankings.NationalitiesCount | SkiingAnalyzer/skianalyzer.cpp:361-371 | one nationality per participant of the year |
| Rankings.CountriesCountParticipants | SkiingAnalyzer/skianalyzer.cpp:351-374 | a nationality is listed iff a participant has it, its count is its number of participants, and the counts add up to the year's participants |
| Tallies.TallyAppend | SkiingAnalyzer/skianalyzer.cpp:363-368 | counting one more text inserts it with 1 or raises its count by one |
| Tallies.TallyCounts | SkiingAnalyzer/skianalyzer.cpp:361-371 | the tally has exactly the texts seen, each with its number of occurrences |
| Tallies.TallySum | SkiingAnalyzer/skianalyzer.cpp:361-371 | the counts add up to the number of texts seen, in any listing of the texts |
| Teams.TeamTimesAreMembersTimes | SkiingAnalyzer/skianalyzer.cpp:387-396 | a team is collected iff its name is not "" and a member has it; its times are its members' times in stored order |
| Teams.CarryKeepsTotal | SkiingAnalyzer/skianalyzer.cpp:424-429 | the carry keeps the total time |
| Teams.CarryBounds | SkiingAnalyzer/skianalyzer.cpp:424-429 | after the carry, hundredths < 100, seconds < 60 and minutes < 60 |
| Teams.CombinedTimeReadable | SkiingAnalyzer/skianalyzer.cpp:449 | a combined time can be read back as a time |
| Teams.SameLegsCombine | SkiingAnalyzer/skianalyzer.cpp:409-429 | four equal legs combine into the carried sum of four legs |
| Teams.FourLegsCombine | SkiingAnalyzer/skianalyzer.cpp:409-449 | four "1:00:45.50" legs combine into "04:03:02.00" |
| Teams.KeyOfFindsTeam | SkiingAnalyzer/skianalyzer.cpp:450 | looking a team up by its times finds a team with exactly those times |
| Teams.InsertedLast | SkiingAnalyzer/skianalyzer.cpp:450 | each key of the map holds the value of its last insertion |
| Teams.InsertedCovers | SkiingAnalyzer/skianalyzer.cpp:450 | every inserted key is in the map |
| Teams.RankingNext | SkiingAnalyzer/skianalyzer.cpp:402-451 | a team of four or more inserts its combined time, and a smaller team changes nothing |
| Teams.RankingCoversTeams | SkiingAnalyzer/skianalyzer.cpp:402-451 | every qualifying team's combined time is a key of the ranking |
| Teams.RankingTeamsQualify | SkiingAnalyzer/skianalyzer.cpp:402-451 | every ranked team qualifies and has the key as its combined time |
| Teams.TeamRows | SkiingAnalyzer/skianalyzer.cpp:457-467 | one row of six fields per place |
| Teams.TeamRowsAt | SkiingAnalyzer/skianalyzer.cpp:457-467 | row i is numbered i+1 and shows the team and the combined time of place i |
| Teams.TeamRankingCount | SkiingAnalyzer/skianalyzer.cpp:453-471 | at most 10 rows, and all teams when there are at most 10 |
| Teams.TeamRankingRow | SkiingAnalyzer/skianalyzer.cpp:457-467 | row i is numbered i+1 and shows a ranked time with its team |
| Teams.TeamRankingAscending | SkiingAnalyzer/skianalyzer.cpp:453-457 | rows come in strictly ascending order of combined time |
| Teams.TeamRankingLeast | SkiingAnalyzer/skianalyzer.cpp:468-470 | a ranked time not shown means 10 rows were shown, all before it |
| Prediction.WinnersAreYearWinners | SkiingAnalyzer/skianalyzer.cpp:486-498 | each winner is the first record of the race in some year from 2014 to 2019 |
| Prediction.WinnersCount | SkiingAnalyzer/skianalyzer.cpp:486 | at most one winner per year counted |
| Prediction.WinCountsCountWins | SkiingAnalyzer/skianalyzer.cpp:486-498 | a name has a count iff it won, and its count is its number of wins |
| Prediction.MostWinsIsFirstMaximal | SkiingAnalyzer/skianalyzer.cpp:503-511 | over names other than "", the choice has the most wins and every earlier name has fewer |
| Prediction.MostWinsSkipsEmptyName | SkiingAnalyzer/skianalyzer.cpp:505-507 | a leading "" name does not count for the choice |
| Prediction.NamesAfterEmpty | SkiingAnalyzer/skianalyzer.cpp:500-509 | in ascending key order "" comes first, so the sentinel test skips it and the choice is made over the other names in order |
| Prediction.ChoiceOverAnyListing | SkiingAnalyzer/skianalyzer.cpp:500-511 | over any listing of the winners' names, in any order, with "" at most in first place: the choice is "" exactly when no other name is listed; otherwise it is the first listed name with the most wins among the named winners |
| Prediction.EmptyNameListedLater | SkiingAnalyzer/skianalyzer.cpp:503-511 | a "" name listed after another name resets the choice: over "A", "", "B" with 2, 3 and 1 wins the choice is "B", and over "A", "" with 1 and 2 wins it is "" |
| Prediction.ChoiceHasMostWins | SkiingAnalyzer/skianalyzer.cpp:500-511 | the choice is "" exactly when no other name is listed; otherwise it is a name other than "" with the most wins, first among those tied |
| Prediction.PredictedWinnerHasMostWins | SkiingAnalyzer/skianalyzer.cpp:475-511 | the predicted winner is "" only when every winner lacks a name; otherwise it won most often among the named winners, with ties going to the name that comes first |
| Prediction.NoWinnerPredictsNobody | SkiingAnalyzer/skianalyzer.cpp:500-519 | with no winners the prediction is "" with no time |
| Analyzer.ComparisonReadsBothSides | SkiingAnalyzer/skianalyzer.cpp:173-222 | the comparison is each side's rows for its own year and code, as many as the race has records |
| Analyzer.ApplyFiltersKeepsRows | SkiingAnalyzer/skianalyzer.cpp:58-155 | filtering only keeps rows it was given |
| Analyzer.TimeTriples | SkiingAnalyzer/skianalyzer.cpp:270-272 | three entries per row |
| Analyzer.TimeTriplesAt | SkiingAnalyzer/skianalyzer.cpp:270-272 | entries 3i, 3i+1 and 3i+2 are row i's year, race and time in hours |
| Analyzer.NameFiltersSelect | SkiingAnalyzer/skianalyzer.cpp:248-268 | with both names given, a row is kept iff its lower-cased fore and family names match, in order |
| Analyzer.RankingOfTeamsListsTeams | SkiingAnalyzer/skianalyzer.cpp:402-451 | each ranking key is the combined time of a qualifying team it maps to, and every qualifying team's time is a key |
| Analyzer.KeepRows | SkiingAnalyzer/skianalyzer.cpp:60-69 | the filter loop keeps the rows that pass, in order |
| Analyzer.FilterWhen | SkiingAnalyzer/skianalyzer.cpp:60-69 | a filter step applies the filter iff its parameter is set |
| Analyzer.FilterChain | SkiingAnalyzer/skianalyzer.cpp:58-155 | the chain of filter steps applies exactly the active filters |
| Analyzer.FilterAthlete | SkiingAnalyzer/skianalyzer.cpp:58-111 | the name, gender and team steps apply their active filters |
| Analyzer.FilterOriginAndTime | SkiingAnalyzer/skianalyzer.cpp:112-155 | the nationality, locality and time steps apply their active filters |
| Analyzer.TopRows | SkiingAnalyzer/skianalyzer.cpp:157-167 | the emit loop shows the top rows |
| Analyzer.EmitCounted | SkiingAnalyzer/skianalyzer.cpp:207-215 | every row is emitted and the total counts them |
| Analyzer.FilterNames | SkiingAnalyzer/skianalyzer.cpp:248-268 | the two name steps apply the name filters |
| Analyzer.CollectTimes | SkiingAnalyzer/skianalyzer.cpp:270-272 | the loop collects the time triples |
| Analyzer.ScanRace | SkiingAnalyzer/skianalyzer.cpp:291-345 | the record loop, with its in-place key change, computes the race's scan |
| Analyzer.ScanRaces | SkiingAnalyzer/skianalyzer.cpp:290-346 | the race loop concatenates the races' scans |
| Analyzer.CountBucket | SkiingAnalyzer/skianalyzer.cpp:362-369 | counting a race's records extends the tally by its nationalities |
| Analyzer.CountRaces | SkiingAnalyzer/skianalyzer.cpp:361-371 | the loops compute the tally of the year's nationalities |
| Analyzer.CollectTeams | SkiingAnalyzer/skianalyzer.cpp:387-396 | the loop collects each team's times |
| Analyzer.ReadCounters | SkiingAnalyzer/skianalyzer.cpp:410-421 | one leg is read into hours, minutes, seconds and hundredths |
| Analyzer.LegsSumOfFour | SkiingAnalyzer/skianalyzer.cpp:409-423 | the leg loop sums the four legs' counters |
| Analyzer.CarryCounters | SkiingAnalyzer/skianalyzer.cpp:424-429 | the statements carry the counters |
| Analyzer.CarryText | SkiingAnalyzer/skianalyzer.cpp:424-449 | the text is the padded carried time |
| Analyzer.CombineTimes | SkiingAnalyzer/skianalyzer.cpp:403-449 | a team's combined time is its first four legs summed, carried and printed |
| Analyzer.LookupTeam | SkiingAnalyzer/skianalyzer.cpp:450 | the lookup of a team by its times |
| Analyzer.RankTeams | SkiingAnalyzer/skianalyzer.cpp:402-452 | the loop builds the ranking map |
| Analyzer.AppendPlace | SkiingAnalyzer/skianalyzer.cpp:458-467 | one iteration adds the next place's row |
| Analyzer.PlaceRows | SkiingAnalyzer/skianalyzer.cpp:454-471 | the counted loop emits the first min(n, 10) places |
| Analyzer.RankingRows | SkiingAnalyzer/skianalyzer.cpp:453-471 | the rows of the ranking, keys in ascending order |
| Analyzer.RankRace | SkiingAnalyzer/skianalyzer.cpp:397-471 | a race's teams give the rows of their ranking |
| Analyzer.ChooseMostWins | SkiingAnalyzer/skianalyzer.cpp:500-511 | the loop makes the choice over the ascending names |
| Analyzer.CountWinner | SkiingAnalyzer/skianalyzer.cpp:488-497 | one winner raises its count and appends its time |
| Analyzer.AddHours | SkiingAnalyzer/skianalyzer.cpp:512-515 | the loop adds up the times in hours |
| Analyzer.SkiAnalyzer.constructor | SkiingAnalyzer/skianalyzer.cpp:5-16 | a fresh retriever with an empty store in the given mode |
| Analyzer.SkiAnalyzer.Run | SkiingAnalyzer/skianalyzer.cpp:10-17 | starting reads the cache or requests the entry page, as the retriever's start does |
| Analyzer.SkiAnalyzer.EmitRows | SkiingAnalyzer/skianalyzer.cpp:42-45 | the rows of one race's records |
| Analyzer.SkiAnalyzer.YearRowsOf | SkiingAnalyzer/skianalyzer.cpp:38-57 | the rows of one year for one code or for all races |
| Analyzer.SkiAnalyzer.SearchYearOf | SkiingAnalyzer/skianalyzer.cpp:37-168 | one year's filtered top rows |
| Analyzer.SkiAnalyzer.SearchYears | SkiingAnalyzer/skianalyzer.cpp:37-169 | the year loop concatenates the years' outputs |
| Analyzer.SkiAnalyzer.HandleSearchRequest | SkiingAnalyzer/skianalyzer.cpp:19-171 | the search emits the specified rows |
| Analyzer.SkiAnalyzer.HandleCompareRequest | SkiingAnalyzer/skianalyzer.cpp:173-222 | the two sides' rows and their counts as text |
| Analyzer.SkiAnalyzer.YearTimesOf | SkiingAnalyzer/skianalyzer.cpp:236-272 | one year's time triples for the athlete |
| Analyzer.SkiAnalyzer.TimesYears | SkiingAnalyzer/skianalyzer.cpp:235-273 | the year loop concatenates the years' triples |
| Analyzer.SkiAnalyzer.HandleTimesRequest | SkiingAnalyzer/skianalyzer.cpp:224-277 | the athlete's times, or nothing unless both names are given |
| Analyzer.SkiAnalyzer.YearWinnersOf | SkiingAnalyzer/skianalyzer.cpp:288-346 | one year's best athletes |
| Analyzer.SkiAnalyzer.HandleBestAthleteRequest | SkiingAnalyzer/skianalyzer.cpp:279-349 | the best athletes of the years asked for |
| Analyzer.SkiAnalyzer.HandleCountriesRequest | SkiingAnalyzer/skianalyzer.cpp:351-374 | the nationality distribution of the year |
| Analyzer.SkiAnalyzer.TeamsOf | SkiingAnalyzer/skianalyzer.cpp:381-396 | the teams of a race in a year |
| Analyzer.SkiAnalyzer.HandleTeamsRequest | SkiingAnalyzer/skianalyzer.cpp:376-473 | the team ranking rows of the race |
| Analyzer.SkiAnalyzer.CollectWinners | SkiingAnalyzer/skianalyzer.cpp:480-498 | the win counts and the winning times of 2014 to 2019 |
| Analyzer.SkiAnalyzer.HandlePredictionRequest | SkiingAnalyzer/skianalyzer.cpp:475-523 | the predicted winner, the race label and the mean winning time |
| Analyzer.SkiAnalyzer.PredictRace | SkiingAnalyzer/skianalyzer.cpp:480-521 | the prediction row for a race code |
| SkiStore.ObjectToRecord | SkiingAnalyzer/skidataretriever.cpp:318-330 | a record keeps exactly the string-valued fields, with their texts |
| SkiStore.SkiingDataOf | SkiingAnalyzer/skidataretriever.cpp:24-49 | an absent year gives nothing; a distance gives at most its own bucket; "" gives every array-valued bucket |
| SkiStore.RecordRoundTrip | SkiingAnalyzer/skidataretriever.cpp:318-330 | a stored record reads back as itself |
| SkiStore.ArrayRoundTrip | SkiingAnalyzer/skidataretriever.cpp:332-348 | a stored bucket reads back as itself, in order |
| SkiStore.ReadAfterWriteAll | SkiingAnalyzer/skidataretriever.cpp:24-49 | a year just stored reads back with all its buckets |
| SkiStore.ReadAfterWriteOne | SkiingAnalyzer/skidataretriever.cpp:33-46 | a year just stored reads back one bucket, or nothing for a distance it lacks |
| SkiStore.ArrayToRecordsOfObjects | SkiingAnalyzer/skidataretriever.cpp:339-346 | an array of objects gives one record per object, in order |
| Retriever.FreshDatabase | SkiingAnalyzer/skidataretriever.cpp:78-79 | the fresh store holds only the anonymous flag |
| Retriever.StorePage | SkiingAnalyzer/skidataretriever.cpp:287 | a page replaces its year's buckets wholesale and leaves every other key alone |
| Retriever.NewParameters | SkiingAnalyzer/skidataretriever.cpp:188-196 | the tokens become the page's two tokens |
| Retriever.AllRepliesComplete | SkiingAnalyzer/skidataretriever.cpp:96-103 | the counters count up to the last reply, which resets both to 0 |
| Retriever.NoYearIsAnonymous | SkiingAnalyzer/skidataretriever.cpp:27-30 | no year key clashes with the flag's key |
| Retriever.FreshDatabaseHoldsNoYears | SkiingAnalyzer/skidataretriever.cpp:70-81 | a fresh store is not stale and holds no year |
| Retriever.StringFieldsOfObject | SkiingAnalyzer/skidataretriever.cpp:320-328 | the field loop over all keys keeps exactly the string-valued fields |
| Retriever.ArrayFieldsOfLookup | SkiingAnalyzer/skidataretriever.cpp:33-46 | the bucket loop over the chosen keys gives the specified data |
| Retriever.SkierDataToHash | SkiingAnalyzer/skidataretriever.cpp:318-330 | the loop builds the record of an object |
| Retriever.DistanceDataToVector | SkiingAnalyzer/skidataretriever.cpp:332-348 | the loop keeps the objects of an array, in order |
| Retriever.SkiDataRetriever.constructor | SkiingAnalyzer/skidataretriever.cpp:3-19 | an empty store with the flag, empty tokens and zero counters |
| Retriever.SkiDataRetriever.GetSkiingData | SkiingAnalyzer/skidataretriever.cpp:24-49 | the lookup returns the specified data |
| Retriever.SkiDataRetriever.StartSkiingDataRetrieval | SkiingAnalyzer/skidataretriever.cpp:51-68 | no cache: the entry page is requested; a stale cache: the store is reset and fetched again; otherwise the cache is used and ready is signalled |
| Retriever.SkiDataRetriever.UpdateDataBase | SkiingAnalyzer/skidataretriever.cpp:70-81 | the cache file is removed, the store reset, the entry page requested, and the counters kept |
| Retriever.SkiDataRetriever.HandleRequestReply | SkiingAnalyzer/skidataretriever.cpp:83-110 | a GET reply sets the tokens and, when both are set, sends one request per year; a POST reply stores the page, counts it, signals progress and, on the last reply, saves and resets |
| Retriever.SkiDataRetriever.GetSkiDataFromWebServer | SkiingAnalyzer/skidataretriever.cpp:112-122 | one request per year from 1974, each counted |
| Retriever.SkiDataRetriever.HandleGetReply | SkiingAnalyzer/skidataretriever.cpp:178-197 | the tokens become the page's tokens |
| Retriever.SkiDataRetriever.HandlePostReply | SkiingAnalyzer/skidataretriever.cpp:199-288 | the store takes the parsed page's year |
| Scraper.TokenAt | SkiingAnalyzer/skidataretriever.cpp:189-193 | a token found lies after value=" and inside the page |
| Scraper.TokenAtIsQuotedValue | SkiingAnalyzer/skidataretriever.cpp:189-193 | a token is the quote-free text right after a value=" that follows its marker, up to a quote |
| Scraper.Tokens | SkiingAnalyzer/skidataretriever.cpp:185-196 | two tokens when found |
| Scraper.TokensAreQuotedValues | SkiingAnalyzer/skidataretriever.cpp:185-196 | the second token is searched from where the first one starts |
| Scraper.ExtractTokens | SkiingAnalyzer/skidataretriever.cpp:185-196 | the loop extracts the tokens |
| Scraper.NextCellIsBetweenMarkers | SkiingAnalyzer/skidataretriever.cpp:244-248 | a cell's text lies between a '>' and the next '<' |
| Scraper.Clean | SkiingAnalyzer/skidataretriever.cpp:251-252 | "&nbsp;" becomes "" and every other text is kept |
| Scraper.RowRecordKeys | SkiingAnalyzer/skidataretriever.cpp:243-270 | a record has exactly the fields of the cells read |
| Scraper.RowRecordValues | SkiingAnalyzer/skidataretriever.cpp:243-270 | the i-th field holds the i-th cell, cleaned and redacted |
| Scraper.FullRowRecord | SkiingAnalyzer/skidataretriever.cpp:243-270 | a full row has the 12 fields, and its distance field is the row's distance |
| Scraper.AnonymousRecord | SkiingAnalyzer/skidataretriever.cpp:257-267 | in anonymous mode three fields become "[Redacted]", three become a 10-character digest prefix, and the rest are unchanged |
| Scraper.PlainRecordHasNoEntity | SkiingAnalyzer/skidataretriever.cpp:251-252 | no stored field is "&nbsp;" |
| Scraper.RowIdsFound | SkiingAnalyzer/skidataretriever.cpp:233-239 | a record is read for every consecutive row id found |
| Scraper.EndOfRows | SkiingAnalyzer/skidataretriever.cpp:233-239 | the scan stops at the first row id missing |
| Scraper.BucketsGroupByDistance | SkiingAnalyzer/skidataretriever.cpp:272-277 | a bucket exists iff a row has its distance, and holds those rows' records in page order |
| Scraper.RecordsWithDistanceComeFromRows | SkiingAnalyzer/skidataretriever.cpp:272-277 | every bucketed record is a row of that distance |
| Scraper.ParsedRecordsSitInTheirBucket | SkiingAnalyzer/skidataretriever.cpp:199-288 | every record has the 12 fields and sits in the bucket of its own distance |
| Scraper.ReadRow | SkiingAnalyzer/skidataretriever.cpp:241-270 | the cell loop reads one row |
| Scraper.ScrapePage | SkiingAnalyzer/skidataretriever.cpp:211-285 | the page loop computes the parsed page |
| SkiTable.Parent | SkiingAnalyzer/skimodel.cpp:116-119 | every parent is the invalid index |
| SkiTable.GoesBeforeUnlessStrictly | SkiingAnalyzer/skimodel.cpp:75-95 | `<=` (or `>=`) holds iff the other key is not strictly before |
| SkiTable.StrictlyIrreflexive | SkiingAnalyzer/skimodel.cpp:75-95 | no key is strictly before itself |
| SkiTable.StrictlyAsymmetric | SkiingAnalyzer/skimodel.cpp:75-95 | strict order is asymmetric |
| SkiTable.StrictlyTransitive | SkiingAnalyzer/skimodel.cpp:75-95 | strict order is transitive |
| SkiTable.StrictlyTotal | SkiingAnalyzer/skimodel.cpp:75-95 | of two different keys, one is strictly before the other |
| SkiTable.InsertionPoint | SkiingAnalyzer/skimodel.cpp:74-83 | every row before the point is strictly before the key, and the row at the point is not |
| SkiTable.Inserted | SkiingAnalyzer/skimodel.cpp:74-83 | insertion adds one row |
| SkiTable.InsertedAddsRow | SkiingAnalyzer/skimodel.cpp:74-83 | insertion adds exactly the new row |
| SkiTable.SortRowsPermutes | SkiingAnalyzer/skimodel.cpp:69-106 | sorting is a permutation |
| SkiTable.InsertedOrdered | SkiingAnalyzer/skimodel.cpp:74-83 | insertion keeps the rows ordered |
| SkiTable.SortRowsOrdered | SkiingAnalyzer/skimodel.cpp:75-100 | sorted rows are non-decreasing (or non-increasing) in the column |
| SkiTable.InsertedWithKey | SkiingAnalyzer/skimodel.cpp:74-77 | a new row goes in front of the rows with the same key |
| SkiTable.SortRowsReversesTies | SkiingAnalyzer/skimodel.cpp:74-77 | rows with equal keys end up in reverse of their previous order |
| SkiTable.InsertRow | SkiingAnalyzer/skimodel.cpp:74-83 | the inner loop inserts at the insertion point |
| SkiTable.InsertionSorted | SkiingAnalyzer/skimodel.cpp:69-86 | the outer loop computes the sort |
| SkiTable.SkiModel.constructor | SkiingAnalyzer/skimodel.cpp:3-6 | an empty table |
| SkiTable.SkiModel.HeaderData | SkiingAnalyzer/skimodel.cpp:8-14 | a column name for a display-role horizontal section in range, nothing otherwise |
| SkiTable.SkiModel.CellsOfTheRoot | SkiingAnalyzer/skimodel.cpp:27-54 | with rows as wide as the header, a cell has data exactly when its row is below rowCount and its column below columnCount of the root, and the data is that cell's text |
| SkiTable.SkiModel.Data | SkiingAnalyzer/skimodel.cpp:44-54 | the cell's text for a valid display-role index past the guards, nothing otherwise |
| SkiTable.SkiModel.SetColumns | SkiingAnalyzer/skimodel.cpp:16-25 | only the columns are replaced |
| SkiTable.SkiModel.ClearData | SkiingAnalyzer/skimodel.cpp:56-63 | only the rows are emptied |
| SkiTable.SkiModel.AddRow | SkiingAnalyzer/skimodel.cpp:121-127 | a row as wide as the columns is appended and readable and raises rowCount by one, any other row changes nothing; rows stay as wide as the header |
| SkiTable.SkiModel.SetSortableColumns | SkiingAnalyzer/skimodel.cpp:129-132 | only the sortable columns are replaced |
| SkiTable.SkiModel.Sort | SkiingAnalyzer/skimodel.cpp:65-109 | a sortable column and a known order give the sorted permutation, ordered by that column; otherwise the rows are unchanged |
| Text.IndexOfIsFirst | SkiingAnalyzer/skidataretriever.cpp:234-237 | indexOf finds the first occurrence at or after the start, and -1 means there is none |
| Text.JoinSplit | SkiingAnalyzer/skianalyzer.cpp:644 | joining the parts of a split gives back the text |
| Text.SplitJoin | SkiingAnalyzer/skianalyzer.cpp:644 | splitting joined parts gives back the parts |
| Text.SplitHasSeveralParts | SkiingAnalyzer/skianalyzer.cpp:650-659 | a split has two or more parts iff the separator occurs |
| Text.ToLowerLetters | SkiingAnalyzer/skianalyzer.cpp:252 | 'A' to 'Z' become 'a' to 'z' and every other character is kept, position by position |
| Text.ToLowerIdempotent | SkiingAnalyzer/skianalyzer.cpp:252 | lower-casing twice is lower-casing once |
| Text.Left | SkiingAnalyzer/skidataretriever.cpp:265 | left(n) is the prefix of length n, or the whole text if shorter |
| Text.ParseIntOfIntToString | SkiingAnalyzer/skidataretriever.cpp:27 | a year printed as a key reads back as the same year |
| Text.IntToStringInjective | SkiingAnalyzer/skidataretriever.cpp:27 | different years have different keys |
| Text.CDiv | SkiingAnalyzer/skianalyzer.cpp:425-429 | C++ `/` truncates toward zero, and agrees with Euclidean division on non-negative dividends |
| Text.CRem | SkiingAnalyzer/skianalyzer.cpp:425-429 | C++ `%` completes the division (quotient times divisor plus remainder is the dividend), with the sign of the dividend, and agrees with Euclidean `%` on non-negative dividends |
| Text.ParseRealOfDigits | SkiingAnalyzer/skianalyzer.cpp:684 | a digit string reads as its value |
| Text.StrLtIrreflexive | SkiingAnalyzer/skianalyzer.cpp:453 | no text is before itself |
| Text.StrLtTransitive | SkiingAnalyzer/skianalyzer.cpp:453 | text order is transitive |
| Text.StrLtTotal | SkiingAnalyzer/skianalyzer.cpp:453 | of two different texts, one is before the other |
| Text.StrLtAsymmetric | SkiingAnalyzer/skianalyzer.cpp:453 | text order is asymmetric |
| Text.SortedKeysEnumerates | SkiingAnalyzer/skianalyzer.cpp:453 | a map's key list has each key once, in strictly ascending order |
| Text.OrderedKeys | SkiingAnalyzer/skianalyzer.cpp:453 | the loop lists the keys in ascending order |

## Left out

- Network traffic is not modelled: `MakePostRequest`, `MakeGetRequest` and the network manager. A request is an `Event` value that records the year and the two form tokens. A reply is a parameter holding its operation code and body. The multipart form fields and the HTTP headers are not modelled.
- File and JSON I/O are not modelled: `SaveDataToFile`, `ReadDataFromFile`, `QJsonDocument` and `QFile::exists`. The cache file's contents are an optional parameter, and saving or removing it is a recorded event. A file that is not a JSON object is not modelled separately.
- The current date is not modelled: today's year is a parameter of the methods that fetch.
- The MD5 digest is not modelled. The retriever takes a function that gives a text's hex digest, and the model keeps its first 10 characters, as the source does.
- Float arithmetic and float-to-text conversion are not modelled. Times are Dafny reals. The average-speed text (`QString::number` plus the `left(pos+3)` trim) and the number text of the times question are parameters.
- 32-bit integer overflow is not modelled: the team counters, the win counts and the request counters are unbounded integers. They stay far below 2^31 for real data.
- Qt signals and slots are not modelled. A handler returns what it would emit, in order. The retriever's methods return their events, and the `dataSent` codes are dropped.
- `QHash` iteration order is fixed here as ascending key order. It affects the order of the all-distances search, the best-athlete scan and the key list of the prediction's choice. It also affects the team ranking's names. When two teams reach the same combined time, the source keeps the team listed last in the hash's order, because `QMap::insert` overwrites. `List.key(teams)` gives the first team in hash order whose member times are the same. The model walks and looks up the teams in ascending name order (`Analyzer.RankingOfTeams`, `Teams.KeyOf`), so of two teams with the same combined time it keeps the one whose name comes last. `Teams.Ranking` itself takes any listing order. The order of the combined times themselves is a `QMap` order and is exact.
- Lower-casing covers ASCII letters only.
- The layout-change notifications and `createIndex`'s internal id in `SkiModel` are not modelled.
- Threads and the UI are not modelled: the main window, the views and the question dock.
- Scraper.ParsePage: when a marker other than the next row id is missing, the page is treated as unreadable and the store is left unchanged. The source goes on with `indexOf` from -1 + 1 = 0 and stores whatever text that picks.
- Retriever.NewParameters: an entry page that lacks a token keeps the old tokens. The source stores whatever text its unchecked index arithmetic picks.
- Rankings.ScanFindsFirstWinnerOnly: "only the first winner" is stated for races whose stripped key names no race. When the stripped key does name a race, the scan goes on in that race's bucket, and `Rankings.BucketScan` models that.
- Analyzer.SkiAnalyzer.HandleTimesRequest, Analyzer.SkiAnalyzer.HandlePredictionRequest: these require every stored time to be readable by `timeToInt`. A time of four or more characters without a ':' makes the source read past the end of its split. This is broader than the source needs. The times question builds a row, and so calls `timeToInt`, for every record of the years asked for (before the name filter), not of every year. The prediction reads only the six winners' times.
- Analyzer.SkiAnalyzer.HandleSearchRequest: a stored non-empty time of four or more characters without a ':' reaches `timeToInt` while `createEmit` builds the rows, before any filter runs; `timeToInt` then reads past the end of its split, which is undefined behaviour. The model builds such a row with whatever the speed-text parameter gives, and its time filters then drop the row (`Search.Matches`).
- AnalyzerRows.CreateEmit, Rankings.BestRow, Analyzer.SkiAnalyzer.HandleCompareRequest, Analyzer.SkiAnalyzer.HandleBestAthleteRequest: the source computes the average speed with `timeToInt` on every row `createEmit` builds for a non-empty time, and on every winner of the best-athlete scan. For a time of four or more characters without a ':' that read is out of range. The speed is a parameter here, so the model emits such a row where the source's behaviour is undefined.
- Text.ParseInt: `QString::toInt` also accepts surrounding whitespace; the model gives 0 for such a text. The texts it reads are year keys and form fields, which carry none.
- Analyzer.SkiAnalyzer.HandleTeamsRequest: requires, for each team of four or more members, that its first four member times have three ':'-parts (`Teams.TeamsReadable`), because the source reads `timeList.at(2)` of those times. These are exactly the times the source reads; the times of smaller teams and of a fifth or later member are not constrained.
- Prediction.ChoiceHasMostWins, Prediction.PredictedWinnerHasMostWins: the most-wins guarantee and the tie rule (the name that comes first) hold for the ascending listing, where "" can only come first. Under the source's hash order a "" winner name (an anonymous first record) listed after a name takes part in the choice and the next name replaces it whatever its wins, so the source can predict "" or a name with fewer wins (`Prediction.EmptyNameListedLater`). `Prediction.ChoiceOverAnyListing` states the guarantee for any order in which "" is absent or listed first; ties then go to the first name in that order.
- Prediction.PredictionRow: with no winners the source divides 0 by 0 and formats the result. The model gives the time "" (`Prediction.NoWinnerPredictsNobody`).
- SkiTable.SkiModel.HeaderData, SkiTable.SkiModel.Data: the guards use `>` where `>=` is needed, so a section, row or column equal to the size gets past them and reads out of range. A negative section does too. The model requires callers not to pass those.
- SkiTable.SkiModel.Sort: requires every row to have the sort column when there are two or more rows, because the source indexes rows without testing their width.
- The destructor and the `QObject` connections are not modelled. The connection from "tokens ready" to the per-year requests is part of `HandleRequestReply`.
