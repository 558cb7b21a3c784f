/**
 * Reading the result archive's HTML pages: the two hidden form tokens of the entry
 * page, and the selected year plus the result rows of a results page. Every search
 * is a forward indexOf from a cursor; each extractor is given first as a function
 * (the specification) and then as the cursor loop the program runs, proved equal.
 */
module Scraper {
  import opened Options
  import opened Text
  import opened SkiStore

  // ---------------------------------------------------------------------------
  // Markers

  const ViewStateId: string := "__VIEWSTATE"
  const EventValidationId: string := "__EVENTVALIDATION"
  const ValueMarker: string := "value=\""
  const Quote: string := "\""

  const YearId: string := "dnn_ctr1025_Etusivu_ddlVuosi2x"
  const Selected: string := "selected="
  const RowIdPrefix: string := "dnn_ctr1025_Etusivu_dgrTulokset_ctl00__"
  const CellStart: string := "<td"
  const InfoStart: string := ">"
  const InfoEnd: string := "<"

  /** The text of an empty table cell, stored as "". */
  const Nbsp: string := "&nbsp;"
  const RedactedText: string := "[Redacted]"
  const HashLength: nat := 10

  /** The twelve cells of a result row, in column order. */
  const FieldNames: seq<string> := [
    "year", "distance", "time", "placement", "placementMale", "placementFemale",
    "sex", "name", "locality", "nationality", "birthYear", "team"
  ]

  /** The fields replaced by a fixed text in anonymous mode. */
  const Censored: set<string> := {"sex", "placementMale", "placementFemale"}

  /** The fields replaced by a prefix of their MD5 digest in anonymous mode. */
  const HashCensored: set<string> := {"name", "locality", "birthYear"}

  // ---------------------------------------------------------------------------
  // Form tokens

  /**
   * The token after a marker: the text from the first value=" at or after the
   * marker up to the next quote, with the position where the token starts.
   */
  function TokenAt(page: string, marker: string, from: nat): (r: Option<(nat, string)>)
    ensures r.Some? ==> from + |ValueMarker| <= r.value.0 && r.value.0 + |r.value.1| < |page|
  {
    var m := IndexOf(page, marker, from);
    if m < 0 then None
    else
      var v := IndexOf(page, ValueMarker, m);
      if v < 0 then None
      else
        var start := v + |ValueMarker|;
        var e := IndexOf(page, Quote, start);
        if e < 0 then None else Some((start, page[start..e]))
  }

  /**
   * A token is quote-free, preceded by value=" and followed by a quote, and its
   * marker occurs between the search start and the value=".
   */
  lemma TokenAtIsQuotedValue(page: string, marker: string, from: nat)
    requires TokenAt(page, marker, from).Some?
    ensures var (start, token) := TokenAt(page, marker, from).value;
            page[start - |ValueMarker|..start] == ValueMarker &&
            page[start..start + |token|] == token &&
            page[start + |token|] == '"' && '"' !in token &&
            exists m :: from <= m <= start - |ValueMarker| && OccursAt(page, marker, m)
  {
    var m := IndexOf(page, marker, from);
    var v := IndexOf(page, ValueMarker, m);
    var start := v + |ValueMarker|;
    var e := IndexOf(page, Quote, start);
    IndexOfIsFirst(page, marker, from);
    IndexOfIsFirst(page, ValueMarker, m);
    IndexOfIsFirst(page, Quote, start);
    OccursAtChar(page, '"', e);
    var token := page[start..e];
    forall q | 0 <= q < |token| ensures token[q] != '"' {
      OccursAtChar(page, '"', start + q);
    }
  }

  /** Prefixing what has been read so far to what the rest of the scan reads. */
  function Then<T>(done: seq<T>, rest: Option<seq<T>>): Option<seq<T>>
  {
    match rest
    case None => None
    case Some(r) => Some(done + r)
  }

  lemma ThenNothing<T>(rest: Option<seq<T>>)
    ensures Then([], rest) == rest
  {
    if rest.Some? {
      assert [] + rest.value == rest.value;
    }
  }

  lemma ThenThen<T>(done: seq<T>, more: seq<T>, rest: Option<seq<T>>)
    ensures Then(done, Then(more, rest)) == Then(done + more, rest)
  {
    if rest.Some? {
      assert done + (more + rest.value) == (done + more) + rest.value;
    }
  }

  /** The ordered token markers of the entry page. */
  const TokenIds: seq<string> := [ViewStateId, EventValidationId]

  /**
   * The tokens for the given markers, each search starting where the previous
   * token's text starts.
   */
  function TokensFrom(page: string, markers: seq<string>, from: nat): (r: Option<seq<string>>)
    ensures r.Some? ==> |r.value| == |markers|
    decreases |markers|
  {
    if markers == [] then Some([])
    else
      match TokenAt(page, markers[0], from)
      case None => None
      case Some((start, token)) => Then([token], TokensFrom(page, markers[1..], start))
  }

  /** The view-state and event-validation tokens of an entry page. */
  function Tokens(page: string): (r: Option<seq<string>>)
    ensures r.Some? ==> |r.value| == 2
  {
    TokensFrom(page, TokenIds, 0)
  }


  /** The token loop of the entry-page handler, one marker after the other. */
  method ExtractTokens(page: string) returns (tokens: Option<seq<string>>)
    ensures tokens == Tokens(page)
  {
    var found: seq<string> := [];
    var index: nat := 0;
    var i := 0;
    ThenNothing(TokensFrom(page, TokenIds, 0));
    while i < |TokenIds|
      invariant 0 <= i <= |TokenIds|
      invariant Tokens(page) == Then(found, TokensFrom(page, TokenIds[i..], index))
    {
      var t := TokenAt(page, TokenIds[i], index);
      if t.None? {
        return None;
      }
      assert TokenIds[i..][1..] == TokenIds[i + 1..];
      ThenThen(found, [t.value.1], TokensFrom(page, TokenIds[i + 1..], t.value.0));
      found := found + [t.value.1];
      index := t.value.0;
      i := i + 1;
    }
    assert TokenIds[i..] == [] && found + [] == found;
    tokens := Some(found);
  }

  /**
   * Each token is the text between the first value=" after its marker and the
   * following quote; the second marker is searched from where the first token starts.
   */
  lemma TokensAreQuotedValues(page: string)
    requires Tokens(page).Some?
    ensures exists start ::
              TokenAt(page, ViewStateId, 0) == Some((start, Tokens(page).value[0])) &&
              TokenAt(page, EventValidationId, start).Some? &&
              TokenAt(page, EventValidationId, start).value.1 == Tokens(page).value[1]
  {
    var (start, first) := TokenAt(page, ViewStateId, 0).value;
    assert TokenIds[1..] == [EventValidationId] && TokenIds[1..][1..] == [];
    var rest := TokensFrom(page, TokenIds[1..], start);
    assert Tokens(page) == Then([first], rest);
    var (end, second) := TokenAt(page, EventValidationId, start).value;
    assert rest == Then([second], TokensFrom(page, [], end));
  }

  // ---------------------------------------------------------------------------
  // Cells

  /**
   * The next cell at or after from: the text between the first '>' after the next
   * "<td" and the following '<', with the position of that '<'.
   */
  function NextCell(page: string, from: nat): (r: Option<(string, nat)>)
    ensures r.Some? ==> from < r.value.1 < |page|
  {
    var c := IndexOf(page, CellStart, from);
    if c < 0 then None
    else
      var g := IndexOf(page, InfoStart, c);
      if g < 0 then None
      else
        var e := IndexOf(page, InfoEnd, g + 1);
        if e < 0 then None else Some((page[g + 1..e], e))
  }

  /** A cell's text lies between a '>' and the '<' it ends at, and holds no '<'. */
  lemma NextCellIsBetweenMarkers(page: string, from: nat)
    requires NextCell(page, from).Some?
    ensures var (text, e) := NextCell(page, from).value;
            page[e] == '<' && |text| < e && page[e - |text| - 1] == '>' &&
            page[e - |text|..e] == text && '<' !in text
  {
    var c := IndexOf(page, CellStart, from);
    var g := IndexOf(page, InfoStart, c);
    var e := IndexOf(page, InfoEnd, g + 1);
    IndexOfIsFirst(page, InfoStart, c);
    IndexOfIsFirst(page, InfoEnd, g + 1);
    OccursAtChar(page, '>', g);
    OccursAtChar(page, '<', e);
    var text := page[g + 1..e];
    forall q | 0 <= q < |text| ensures text[q] != '<' {
      OccursAtChar(page, '<', g + 1 + q);
    }
  }

  /** The texts of n consecutive cells from position from, with the end of the last one. */
  function Cells(page: string, from: nat, n: nat): (r: Option<(seq<string>, nat)>)
    ensures r.Some? ==> |r.value.0| == n && from <= r.value.1 && (n > 0 ==> from < r.value.1 < |page|)
    decreases n
  {
    if n == 0 then Some(([], from))
    else
      match Cells(page, from, n - 1)
      case None => None
      case Some((cells, c)) =>
        match NextCell(page, c)
        case None => None
        case Some((text, e)) => Some((cells + [text], e))
  }

  lemma {:induction false} CellsStayMissing(page: string, from: nat, k: nat, n: nat)
    requires k <= n && Cells(page, from, k).None?
    ensures Cells(page, from, n).None?
    decreases n - k
  {
    if k < n {
      CellsStayMissing(page, from, k + 1, n);
    }
  }

  // ---------------------------------------------------------------------------
  // Records

  /** A cell's stored text: the non-breaking-space entity stands for an empty cell. */
  function Clean(text: string): (r: string)
    ensures r != Nbsp
    ensures text == Nbsp ==> r == ""
    ensures text != Nbsp ==> r == text
  {
    if text == Nbsp then "" else text
  }

  /** The value stored for a field: in anonymous mode redacted or hashed, otherwise as read. */
  function Stored(name: string, value: string, anonymous: bool, md5Hex: string -> string): string
  {
    if !anonymous then value
    else if name in Censored then RedactedText
    else if name in HashCensored then Left(md5Hex(value), HashLength)
    else value
  }

  /** The record of a row's first |cells| cells, one field per cell in column order. */
  function RowRecord(cells: seq<string>, anonymous: bool, md5Hex: string -> string): Record
    requires |cells| <= |FieldNames|
    decreases |cells|
  {
    if cells == [] then map[]
    else
      var k := |cells| - 1;
      RowRecord(cells[..k], anonymous, md5Hex)[FieldNames[k] := Stored(FieldNames[k], Clean(cells[k]), anonymous, md5Hex)]
  }

  /** The distance cell of a row, cleaned; "" before it has been read. */
  function RowDistance(cells: seq<string>): string
  {
    if |cells| >= 2 then Clean(cells[1]) else ""
  }

  lemma FieldNamesDistinct()
    ensures forall i, j :: 0 <= i < j < |FieldNames| ==> FieldNames[i] != FieldNames[j]
  {
  }

  /** The record of k cells has exactly the first k field names as keys. */
  lemma {:induction false} RowRecordKeys(cells: seq<string>, anonymous: bool, md5Hex: string -> string)
    requires |cells| <= |FieldNames|
    ensures forall f :: f in RowRecord(cells, anonymous, md5Hex) <==> f in FieldNames[..|cells|]
    decreases |cells|
  {
    if cells != [] {
      var k := |cells| - 1;
      RowRecordKeys(cells[..k], anonymous, md5Hex);
      assert FieldNames[..k + 1] == FieldNames[..k] + [FieldNames[k]];
    }
  }

  /** In the record of k cells the i-th field name holds the i-th cell as stored. */
  lemma {:induction false} RowRecordValues(cells: seq<string>, anonymous: bool, md5Hex: string -> string)
    requires |cells| <= |FieldNames|
    ensures forall i :: 0 <= i < |cells| ==>
              FieldNames[i] in RowRecord(cells, anonymous, md5Hex) &&
              RowRecord(cells, anonymous, md5Hex)[FieldNames[i]] == Stored(FieldNames[i], Clean(cells[i]), anonymous, md5Hex)
    decreases |cells|
  {
    if cells != [] {
      var k := |cells| - 1;
      var front := RowRecord(cells[..k], anonymous, md5Hex);
      RowRecordValues(cells[..k], anonymous, md5Hex);
      FieldNamesDistinct();
      forall i | 0 <= i < k
        ensures RowRecord(cells, anonymous, md5Hex)[FieldNames[i]] == Stored(FieldNames[i], Clean(cells[i]), anonymous, md5Hex)
      {
        assert cells[..k][i] == cells[i];
        assert FieldNames[i] != FieldNames[k];
        assert RowRecord(cells, anonymous, md5Hex)[FieldNames[i]] == front[FieldNames[i]];
      }
    }
  }

  /** The set of the twelve field names. */
  const FieldSet: set<string> := set f | f in FieldNames

  /**
   * A full row's record has exactly the twelve fields; the distance read for the
   * row is its "distance" field, which anonymous mode leaves alone.
   */
  lemma FullRowRecord(cells: seq<string>, anonymous: bool, md5Hex: string -> string)
    requires |cells| == |FieldNames|
    ensures RowRecord(cells, anonymous, md5Hex).Keys == FieldSet
    ensures RowRecord(cells, anonymous, md5Hex)["distance"] == RowDistance(cells)
  {
    var r := RowRecord(cells, anonymous, md5Hex);
    RowRecordKeys(cells, anonymous, md5Hex);
    assert FieldNames[..|cells|] == FieldNames;
    assert r.Keys == FieldSet;
    RowRecordValues(cells, anonymous, md5Hex);
    assert FieldNames[1] == "distance";
    assert r[FieldNames[1]] == Stored(FieldNames[1], Clean(cells[1]), anonymous, md5Hex);
  }

  /** The field of column i holds that column's cell, as stored. */
  lemma FieldOfColumn(cells: seq<string>, anonymous: bool, md5Hex: string -> string, i: nat)
    requires |cells| <= |FieldNames| && i < |cells|
    ensures FieldNames[i] in RowRecord(cells, anonymous, md5Hex)
    ensures RowRecord(cells, anonymous, md5Hex)[FieldNames[i]] == Stored(FieldNames[i], Clean(cells[i]), anonymous, md5Hex)
  {
    RowRecordValues(cells, anonymous, md5Hex);
  }

  /**
   * Anonymous mode against plain mode on the same cells: sex and the two gender
   * placements become "[Redacted]", name, locality and birth year the first ten
   * characters of the digest of the plain value, and every other field is unchanged.
   */
  lemma AnonymousRecord(cells: seq<string>, md5Hex: string -> string)
    requires |cells| == |FieldNames|
    ensures var plain := RowRecord(cells, false, md5Hex);
            var anon := RowRecord(cells, true, md5Hex);
            plain.Keys == anon.Keys &&
            (forall f :: f in plain && f in Censored ==> anon[f] == RedactedText) &&
            (forall f :: f in plain && f in HashCensored ==> anon[f] == Left(md5Hex(plain[f]), HashLength)) &&
            (forall f :: f in plain && f !in Censored && f !in HashCensored ==> anon[f] == plain[f])
  {
    var plain := RowRecord(cells, false, md5Hex);
    var anon := RowRecord(cells, true, md5Hex);
    FullRowRecord(cells, false, md5Hex);
    FullRowRecord(cells, true, md5Hex);
    forall f | f in plain
      ensures f in Censored ==> anon[f] == RedactedText
      ensures f in HashCensored ==> anon[f] == Left(md5Hex(plain[f]), HashLength)
      ensures f !in Censored && f !in HashCensored ==> anon[f] == plain[f]
    {
      var i :| 0 <= i < |FieldNames| && FieldNames[i] == f;
      AnonymousField(cells, md5Hex, i);
    }
  }

  /** One field of AnonymousRecord: the field of column i in both modes. */
  lemma AnonymousField(cells: seq<string>, md5Hex: string -> string, i: nat)
    requires |cells| == |FieldNames| && i < |cells|
    ensures var plain := RowRecord(cells, false, md5Hex);
            var anon := RowRecord(cells, true, md5Hex);
            FieldNames[i] in plain && FieldNames[i] in anon &&
            (FieldNames[i] in Censored ==> anon[FieldNames[i]] == RedactedText) &&
            (FieldNames[i] in HashCensored ==> anon[FieldNames[i]] == Left(md5Hex(plain[FieldNames[i]]), HashLength)) &&
            (FieldNames[i] !in Censored && FieldNames[i] !in HashCensored ==> anon[FieldNames[i]] == plain[FieldNames[i]])
  {
    FieldOfColumn(cells, false, md5Hex, i);
    FieldOfColumn(cells, true, md5Hex, i);
  }

  /** In plain mode no stored value is the non-breaking-space entity. */
  lemma PlainRecordHasNoEntity(cells: seq<string>, md5Hex: string -> string)
    requires |cells| == |FieldNames|
    ensures forall f :: f in RowRecord(cells, false, md5Hex) ==> RowRecord(cells, false, md5Hex)[f] != Nbsp
  {
    FullRowRecord(cells, false, md5Hex);
    forall f | f in RowRecord(cells, false, md5Hex) ensures RowRecord(cells, false, md5Hex)[f] != Nbsp {
      var i :| 0 <= i < |FieldNames| && FieldNames[i] == f;
      FieldOfColumn(cells, false, md5Hex, i);
    }
  }

  // ---------------------------------------------------------------------------
  // Rows

  datatype ScrapedRow = ScrapedRow(distance: string, record: Record)

  /** The id that marks the row with the given index. */
  function RowId(index: nat): string
  {
    RowIdPrefix + NatToString(index)
  }

  /** A row's cells as a scraped row: its cleaned distance cell and its record. */
  function RowOf(cells: seq<string>, anonymous: bool, md5Hex: string -> string): ScrapedRow
    requires |cells| <= |FieldNames|
  {
    ScrapedRow(RowDistance(cells), RowRecord(cells, anonymous, md5Hex))
  }

  /** The row read from position p: its record, its distance, and where reading stopped. */
  function RowAt(page: string, p: nat, anonymous: bool, md5Hex: string -> string): (r: Option<(ScrapedRow, nat)>)
    ensures r.Some? ==> p < r.value.1 < |page|
  {
    match Cells(page, p, |FieldNames|)
    case None => None
    case Some((cells, e)) => Some((RowOf(cells, anonymous, md5Hex), e))
  }

  /**
   * The cells of the rows from position from on, numbered from index: the scan stops,
   * with the rows read so far, at the first row id that does not occur.
   */
  function RowCellsFrom(page: string, from: nat, index: nat): (r: Option<seq<seq<string>>>)
    ensures r.Some? ==> forall i :: 0 <= i < |r.value| ==> |r.value[i]| == |FieldNames|
    decreases |page| - from
  {
    var p := IndexOf(page, RowId(index), from);
    if p < 0 then Some([])
    else
      match Cells(page, p, |FieldNames|)
      case None => None
      case Some((cells, e)) =>
        var rest := RowCellsFrom(page, e, index + 1);
        if rest.None? then None else Some([cells] + rest.value)
  }

  /** The scraped rows of a sequence of full rows of cells, in order. */
  function RowsOf(cellRows: seq<seq<string>>, anonymous: bool, md5Hex: string -> string): seq<ScrapedRow>
    requires forall i :: 0 <= i < |cellRows| ==> |cellRows[i]| == |FieldNames|
  {
    seq(|cellRows|, i requires 0 <= i < |cellRows| => RowOf(cellRows[i], anonymous, md5Hex))
  }

  /** The selected year's text and the position of the '<' after it. */
  function YearText(page: string): (r: Option<(string, nat)>)
    ensures r.Some? ==> r.value.1 < |page|
  {
    var y := IndexOf(page, YearId, 0);
    if y < 0 then None
    else
      var s := IndexOf(page, Selected, y);
      if s < 0 then None
      else
        var g := IndexOf(page, InfoStart, s);
        if g < 0 then None
        else
          var e := IndexOf(page, InfoEnd, g + 1);
          if e < 0 then None else Some((page[g + 1..e], e))
  }

  /** Grouping rows by their distance, each bucket in page order. */
  function Buckets(rows: seq<ScrapedRow>): SkiingData
    decreases |rows|
  {
    if rows == [] then map[]
    else
      var b := Buckets(rows[..|rows| - 1]);
      var row := rows[|rows| - 1];
      b[row.distance := Bucket(b, row.distance) + [row.record]]
  }

  /** The records of the rows with the given distance, in page order. */
  function RecordsWithDistance(rows: seq<ScrapedRow>, distance: string): seq<Record>
    decreases |rows|
  {
    if rows == [] then []
    else
      var row := rows[|rows| - 1];
      RecordsWithDistance(rows[..|rows| - 1], distance) + (if row.distance == distance then [row.record] else [])
  }

  /**
   * Bucket k holds exactly the records of the rows whose distance is k, in page
   * order, and there is a bucket for exactly the distances that occur.
   */
  lemma {:induction false} BucketsGroupByDistance(rows: seq<ScrapedRow>)
    ensures forall k :: k in Buckets(rows) <==> exists i :: 0 <= i < |rows| && rows[i].distance == k
    ensures forall k :: Bucket(Buckets(rows), k) == RecordsWithDistance(rows, k)
    decreases |rows|
  {
    if rows != [] {
      var front := rows[..|rows| - 1];
      var last := rows[|rows| - 1];
      BucketsGroupByDistance(front);
      assert Buckets(rows) == Buckets(front)[last.distance := Bucket(Buckets(front), last.distance) + [last.record]];
      forall k | exists i :: 0 <= i < |rows| && rows[i].distance == k
        ensures k in Buckets(rows)
      {
        var i :| 0 <= i < |rows| && rows[i].distance == k;
        if i < |rows| - 1 {
          assert front[i] == rows[i];
        }
      }
      forall k | k in Buckets(rows)
        ensures exists i :: 0 <= i < |rows| && rows[i].distance == k
      {
        if k != last.distance {
          assert k in Buckets(front);
          var i :| 0 <= i < |front| && front[i].distance == k;
          assert rows[i] == front[i];
        }
      }
      forall k ensures Bucket(Buckets(rows), k) == RecordsWithDistance(rows, k) {
        assert RecordsWithDistance(rows, k) ==
                 RecordsWithDistance(front, k) + (if last.distance == k then [last.record] else []);
      }
    }
  }

  /** Every record a row list puts in bucket k came from a row whose distance is k. */
  lemma {:induction false} RecordsWithDistanceComeFromRows(rows: seq<ScrapedRow>, distance: string)
    ensures forall r :: r in RecordsWithDistance(rows, distance) ==>
              exists i :: 0 <= i < |rows| && rows[i].distance == distance && rows[i].record == r
    decreases |rows|
  {
    if rows != [] {
      var front := rows[..|rows| - 1];
      RecordsWithDistanceComeFromRows(front, distance);
      forall r | r in RecordsWithDistance(rows, distance)
        ensures exists i :: 0 <= i < |rows| && rows[i].distance == distance && rows[i].record == r
      {
        if r in RecordsWithDistance(front, distance) {
          var i :| 0 <= i < |front| && front[i].distance == distance && front[i].record == r;
          assert rows[i] == front[i];
        } else {
          assert rows[|rows| - 1].record == r;
        }
      }
    }
  }

  /** Every row built from full rows of cells is a full row: twelve fields, its distance in its record. */
  lemma RowsAreFullRows(cellRows: seq<seq<string>>, anonymous: bool, md5Hex: string -> string)
    requires forall i :: 0 <= i < |cellRows| ==> |cellRows[i]| == |FieldNames|
    ensures forall row | row in RowsOf(cellRows, anonymous, md5Hex) :: SitsIn(row.record, row.distance)
  {
    var rows := RowsOf(cellRows, anonymous, md5Hex);
    forall row | row in rows ensures SitsIn(row.record, row.distance) {
      var i :| 0 <= i < |rows| && rows[i] == row;
      FullRowRecord(cellRows[i], anonymous, md5Hex);
    }
  }

  /** The id of row index occurs at or after position from. */
  ghost predicate IdFoundFrom(page: string, index: nat, from: nat)
  {
    exists p :: from <= p && OccursAt(page, RowId(index), p)
  }

  /** The id of row index does not occur at or after position from. */
  predicate IdMissingFrom(page: string, index: nat, from: nat)
  {
    IndexOf(page, RowId(index), from) == -1
  }

  /** From some position at or after from on, the id of row index does not occur. */
  ghost predicate IdMissingAfter(page: string, index: nat, from: nat)
  {
    exists last: nat :: from <= last && IdMissingFrom(page, index, last)
  }

  /** When row index is found, the scan reads it and goes on with the next id further on. */
  lemma RowCellsStep(page: string, from: nat, index: nat) returns (e: nat)
    requires RowCellsFrom(page, from, index).Some?
    requires IndexOf(page, RowId(index), from) >= 0
    ensures from < e && RowCellsFrom(page, e, index + 1).Some?
    ensures |RowCellsFrom(page, from, index).value| == 1 + |RowCellsFrom(page, e, index + 1).value|
  {
    var p := IndexOf(page, RowId(index), from);
    e := Cells(page, p, |FieldNames|).value.1;
  }

  /** The id of every row read occurs in the page at or after from. */
  lemma RowIdsFound(page: string, from: nat, index: nat)
    requires RowCellsFrom(page, from, index).Some?
    ensures forall j :: index <= j < index + |RowCellsFrom(page, from, index).value| ==> IdFoundFrom(page, j, from)
  {
    forall j | index <= j < index + |RowCellsFrom(page, from, index).value| ensures IdFoundFrom(page, j, from) {
      RowIdFound(page, from, index, j);
    }
  }

  /** The id of the j-th row read occurs in the page at or after from. */
  lemma {:induction false} RowIdFound(page: string, from: nat, index: nat, j: nat)
    requires RowCellsFrom(page, from, index).Some?
    requires index <= j < index + |RowCellsFrom(page, from, index).value|
    ensures IdFoundFrom(page, j, from)
    decreases |page| - from
  {
    var p := IndexOf(page, RowId(index), from);
    IndexOfIsFirst(page, RowId(index), from);
    if j > index {
      var e := RowCellsStep(page, from, index);
      RowIdFound(page, e, index + 1, j);
      IdFoundEarlier(page, j, from, e);
    }
  }

  lemma IdFoundEarlier(page: string, index: nat, from: nat, later: nat)
    requires from <= later && IdFoundFrom(page, index, later)
    ensures IdFoundFrom(page, index, from)
  {
    var q :| later <= q && OccursAt(page, RowId(index), q);
    assert from <= q;
  }

  /** The scan of rows ends where the id after the last row read no longer occurs. */
  lemma RowIdsEnd(page: string, from: nat, index: nat)
    requires RowCellsFrom(page, from, index).Some?
    ensures IdMissingAfter(page, index + |RowCellsFrom(page, from, index).value|, from)
  {
    var last := EndOfRows(page, from, index);
  }

  /** A position at or after from from which the id after the last row read is missing. */
  lemma {:induction false} EndOfRows(page: string, from: nat, index: nat) returns (last: nat)
    requires RowCellsFrom(page, from, index).Some?
    ensures from <= last && IdMissingFrom(page, index + |RowCellsFrom(page, from, index).value|, last)
    decreases |page| - from
  {
    if IndexOf(page, RowId(index), from) < 0 {
      last := from;
    } else {
      var e := RowCellsStep(page, from, index);
      last := EndOfRows(page, e, index + 1);
    }
  }

  // ---------------------------------------------------------------------------
  // A whole results page

  datatype Page = Page(year: string, buckets: SkiingData)

  /** The year text and the distance buckets of a results page. */
  function ParsePage(page: string, anonymous: bool, md5Hex: string -> string): Option<Page>
  {
    match YearText(page)
    case None => None
    case Some((year, e)) =>
      match RowCellsFrom(page, e, 0)
      case None => None
      case Some(cellRows) => Some(Page(year, Buckets(RowsOf(cellRows, anonymous, md5Hex))))
  }

  /**
   * Every record of a parsed page has the twelve fields and sits in the bucket named
   * by its own distance field; the buckets hold the page's rows in page order.
   */
  lemma ParsedRecordsSitInTheirBucket(page: string, anonymous: bool, md5Hex: string -> string)
    requires ParsePage(page, anonymous, md5Hex).Some?
    ensures var b := ParsePage(page, anonymous, md5Hex).value.buckets;
            forall k, r :: k in b && r in b[k] ==> r.Keys == FieldSet && r["distance"] == k
  {
    var (year, e) := YearText(page).value;
    var cellRows := RowCellsFrom(page, e, 0).value;
    RowsAreFullRows(cellRows, anonymous, md5Hex);
    BucketsHoldFullRecords(RowsOf(cellRows, anonymous, md5Hex));
  }

  /** A record with the twelve fields whose distance field names the bucket k. */
  predicate SitsIn(r: Record, k: string)
  {
    r.Keys == FieldSet && "distance" in r && r["distance"] == k
  }

  /** Grouping rows into buckets puts each full record under its own distance. */
  lemma {:induction false} BucketsHoldFullRecords(rows: seq<ScrapedRow>)
    requires forall row | row in rows :: SitsIn(row.record, row.distance)
    ensures forall k | k in Buckets(rows) :: forall r | r in Buckets(rows)[k] :: SitsIn(r, k)
    decreases |rows|
  {
    if rows != [] {
      var front := rows[..|rows| - 1];
      assert forall row | row in front :: row in rows;
      BucketsHoldFullRecords(front);
      assert rows[|rows| - 1] in rows;
    }
  }

  // ---------------------------------------------------------------------------
  // The loops of the results-page handler

  /** The distance is the second column and no other. */
  lemma DistanceColumn(k: nat)
    requires k < |FieldNames|
    ensures FieldNames[k] == "distance" <==> k == 1
  {
    assert k == 0 || k == 1 || k == 2 || k == 3 || k == 4 || k == 5 || k == 6 || k == 7 || k == 8 || k == 9 || k == 10 || k == 11;
  }

  /** One more cell read extends the cells by that cell. */
  lemma CellsStep(page: string, p: nat, k: nat, cells: seq<string>, c: nat, text: string, e: nat)
    requires Cells(page, p, k) == Some((cells, c)) && NextCell(page, c) == Some((text, e))
    ensures Cells(page, p, k + 1) == Some((cells + [text], e))
  {
  }

  /** One more cell read extends the record by its field. */
  lemma RecordStep(cells: seq<string>, text: string, anonymous: bool, md5Hex: string -> string)
    requires |cells| < |FieldNames|
    ensures RowRecord(cells + [text], anonymous, md5Hex) ==
              RowRecord(cells, anonymous, md5Hex)[FieldNames[|cells|] := Stored(FieldNames[|cells|], Clean(text), anonymous, md5Hex)]
  {
    var more := cells + [text];
    assert more[..|cells|] == cells && more[|cells|] == text;
  }

  /** One more cell read sets the distance exactly when it is the distance column. */
  lemma DistanceStep(cells: seq<string>, text: string)
    requires |cells| < |FieldNames|
    ensures RowDistance(cells + [text]) == if FieldNames[|cells|] == "distance" then Clean(text) else RowDistance(cells)
  {
    DistanceColumn(|cells|);
  }

  /** The cell loop: twelve cells read one after the other into a record. */
  method ReadRow(page: string, p: nat, anonymous: bool, md5Hex: string -> string) returns (r: Option<(ScrapedRow, nat)>)
    ensures r == RowAt(page, p, anonymous, md5Hex)
  {
    var info: Record := map[];
    var distance := "";
    var cursor: nat := p;
    ghost var cells: seq<string> := [];
    var k := 0;
    while k < |FieldNames|
      invariant 0 <= k <= |FieldNames|
      invariant Cells(page, p, k) == Some((cells, cursor))
      invariant info == RowRecord(cells, anonymous, md5Hex)
      invariant distance == RowDistance(cells)
    {
      var next := NextCell(page, cursor);
      if next.None? {
        RowMissing(page, p, k, cells, cursor, anonymous, md5Hex);
        return None;
      }
      var (text, e) := next.value;
      var data := Clean(text);
      if FieldNames[k] == "distance" {
        distance := data;
      }
      CellsStep(page, p, k, cells, cursor, text, e);
      RecordStep(cells, text, anonymous, md5Hex);
      DistanceStep(cells, text);
      info := info[FieldNames[k] := Stored(FieldNames[k], data, anonymous, md5Hex)];
      cells := cells + [text];
      cursor := e;
      k := k + 1;
    }
    RowRead(page, p, cells, cursor, anonymous, md5Hex);
    r := Some((ScrapedRow(distance, info), cursor));
  }

  /** A cell missing before the twelfth leaves no row at p. */
  lemma RowMissing(page: string, p: nat, k: nat, cells: seq<string>, c: nat, anonymous: bool, md5Hex: string -> string)
    requires k < |FieldNames| && Cells(page, p, k) == Some((cells, c)) && NextCell(page, c).None?
    ensures RowAt(page, p, anonymous, md5Hex).None?
  {
    CellsStayMissing(page, p, k + 1, |FieldNames|);
  }

  /** Twelve cells read make the row at p. */
  lemma RowRead(page: string, p: nat, cells: seq<string>, c: nat, anonymous: bool, md5Hex: string -> string)
    requires Cells(page, p, |FieldNames|) == Some((cells, c))
    ensures RowAt(page, p, anonymous, md5Hex) ==
              Some((ScrapedRow(RowDistance(cells), RowRecord(cells, anonymous, md5Hex)), c))
  {
  }

  /** A row found at the cursor is the first of the rows from the cursor on. */
  lemma ScrapeStep(page: string, cursor: nat, index: nat, p: int, row: ScrapedRow, e: nat,
                   anonymous: bool, md5Hex: string -> string) returns (cells: seq<string>)
    requires p == IndexOf(page, RowId(index), cursor) && p >= 0
    requires RowAt(page, p, anonymous, md5Hex) == Some((row, e))
    ensures |cells| == |FieldNames| && row == RowOf(cells, anonymous, md5Hex)
    ensures RowCellsFrom(page, cursor, index) == Then([cells], RowCellsFrom(page, e, index + 1))
  {
    cells := Cells(page, p, |FieldNames|).value.0;
  }

  /** Converting one more row of cells appends its row. */
  lemma RowsOfStep(done: seq<seq<string>>, cells: seq<string>, anonymous: bool, md5Hex: string -> string)
    requires forall i :: 0 <= i < |done| ==> |done[i]| == |FieldNames|
    requires |cells| == |FieldNames|
    ensures forall i :: 0 <= i < |done + [cells]| ==> |(done + [cells])[i]| == |FieldNames|
    ensures RowsOf(done + [cells], anonymous, md5Hex) == RowsOf(done, anonymous, md5Hex) + [RowOf(cells, anonymous, md5Hex)]
  {
    assert forall i :: 0 <= i < |done| ==> (done + [cells])[i] == done[i];
  }

  /** Appending a row appends its record to the bucket of its distance. */
  lemma BucketsStep(done: seq<ScrapedRow>, row: ScrapedRow)
    ensures Buckets(done + [row]) == Buckets(done)[row.distance := Bucket(Buckets(done), row.distance) + [row.record]]
  {
    assert (done + [row])[..|done|] == done;
  }

  /**
   * The results-page loop: the selected year, then rows by consecutive id, each
   * appended to the bucket of its distance.
   */
  method ScrapePage(page: string, anonymous: bool, md5Hex: string -> string) returns (r: Option<Page>)
    ensures r == ParsePage(page, anonymous, md5Hex)
  {
    var year := YearText(page);
    if year.None? {
      return None;
    }
    var (yearText, start) := year.value;
    var temp: SkiingData := map[];
    ghost var done: seq<seq<string>> := [];
    var cursor: nat := start;
    var index: nat := 0;
    ThenNothing(RowCellsFrom(page, start, 0));
    while true
      invariant RowCellsFrom(page, start, 0) == Then(done, RowCellsFrom(page, cursor, index))
      invariant forall i :: 0 <= i < |done| ==> |done[i]| == |FieldNames|
      invariant temp == Buckets(RowsOf(done, anonymous, md5Hex))
      decreases |page| - cursor
    {
      var p := IndexOf(page, RowId(index), cursor);
      if p < 0 {
        break;
      }
      var row := ReadRow(page, p, anonymous, md5Hex);
      if row.None? {
        return None;
      }
      var (scraped, e) := row.value;
      ghost var cells := ScrapeStep(page, cursor, index, p, scraped, e, anonymous, md5Hex);
      ThenThen(done, [cells], RowCellsFrom(page, e, index + 1));
      RowsOfStep(done, cells, anonymous, md5Hex);
      BucketsStep(RowsOf(done, anonymous, md5Hex), scraped);
      temp := temp[scraped.distance := Bucket(temp, scraped.distance) + [scraped.record]];
      done := done + [cells];
      cursor := e;
      index := index + 1;
    }
    assert done + [] == done;
    r := Some(Page(yearText, temp));
  }
}
