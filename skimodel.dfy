/**
 * The table behind the program's tree views: a list of text rows under a list of
 * column names, rows appended only when they are as wide as the header, and a sort
 * that rebuilds the rows by inserting them one at a time into a new list.
 */
module SkiTable {
  import opened Options
  import opened Text

  type Row = seq<string>

  /** Qt::DisplayRole. */
  const DisplayRole: int := 0
  /** Qt::Horizontal. */
  const Horizontal: int := 1
  /** Qt::AscendingOrder. */
  const AscendingOrder: int := 0
  /** Qt::DescendingOrder. */
  const DescendingOrder: int := 1

  /** A model index as the table creates it: a row and a column, and nothing else. */
  datatype ModelIndex = ModelIndex(row: int, column: int)

  /** An index made by the table is valid when both its coordinates are not negative. */
  predicate IsValid(index: ModelIndex)
  {
    index.row >= 0 && index.column >= 0
  }

  /** The index of a cell, made without checking that the cell exists. */
  function Index(row: int, column: int): ModelIndex
  {
    ModelIndex(row, column)
  }

  /** Every index has the same parent: an index that is not valid, so the table is flat. */
  function Parent(child: ModelIndex): (parent: ModelIndex)
    ensures !IsValid(parent)
  {
    ModelIndex(-1, -1)
  }

  // ---------------------------------------------------------------------------
  // The sort, as a function of the rows

  /** The text of a row in a column; a column the row does not have reads "". */
  function Cell(r: Row, column: int): string
  {
    if 0 <= column < |r| then r[column] else ""
  }

  /**
   * `a` strictly comes before `b` in the order asked for: below it for an ascending
   * sort, above it for a descending one.
   */
  predicate Strictly(a: string, b: string, ascending: bool)
  {
    if ascending then StrLt(a, b) else StrLt(b, a)
  }

  /**
   * The test that places a new row before a listed one: `<=` on the column's texts
   * for an ascending sort, `>=` for a descending one.
   */
  predicate GoesBefore(key: string, other: string, ascending: bool)
  {
    if ascending then !StrLt(other, key) else !StrLt(key, other)
  }

  lemma GoesBeforeUnlessStrictly(key: string, other: string, ascending: bool)
    ensures GoesBefore(key, other, ascending) <==> !Strictly(other, key, ascending)
  {
  }

  lemma StrictlyIrreflexive(a: string, ascending: bool)
    ensures !Strictly(a, a, ascending)
  {
    StrLtIrreflexive(a);
  }

  lemma StrictlyAsymmetric(a: string, b: string, ascending: bool)
    requires Strictly(a, b, ascending)
    ensures !Strictly(b, a, ascending)
  {
    if ascending { StrLtAsymmetric(a, b); } else { StrLtAsymmetric(b, a); }
  }

  lemma StrictlyTransitive(a: string, b: string, c: string, ascending: bool)
    requires Strictly(a, b, ascending) && Strictly(b, c, ascending)
    ensures Strictly(a, c, ascending)
  {
    if ascending { StrLtTransitive(a, b, c); } else { StrLtTransitive(c, b, a); }
  }

  lemma StrictlyTotal(a: string, b: string, ascending: bool)
    requires a != b
    ensures Strictly(a, b, ascending) || Strictly(b, a, ascending)
  {
    StrLtTotal(a, b);
  }

  /**
   * Where a row with the given key goes: the first position from `from` on whose row
   * the new one goes before, or the end of the list.
   */
  function InsertionPoint(s: seq<Row>, key: string, column: int, ascending: bool, from: nat): (p: nat)
    requires from <= |s|
    ensures from <= p <= |s|
    ensures forall j | from <= j < p :: Strictly(Cell(s[j], column), key, ascending)
    ensures p < |s| ==> GoesBefore(key, Cell(s[p], column), ascending)
    decreases |s| - from
  {
    if from == |s| then |s|
    else if GoesBefore(key, Cell(s[from], column), ascending) then from
    else InsertionPoint(s, key, column, ascending, from + 1)
  }

  /** The list with the row inserted at its insertion point. */
  function Inserted(s: seq<Row>, row: Row, column: int, ascending: bool): (t: seq<Row>)
    ensures |t| == |s| + 1
  {
    var p := InsertionPoint(s, Cell(row, column), column, ascending, 0);
    s[..p] + [row] + s[p..]
  }

  /** The rows inserted one after the other, in their order, into an empty list. */
  function SortRows(rs: seq<Row>, column: int, ascending: bool): seq<Row>
    decreases |rs|
  {
    if rs == [] then []
    else Inserted(SortRows(rs[..|rs| - 1], column, ascending), rs[|rs| - 1], column, ascending)
  }

  /** No row comes strictly before a row listed earlier. */
  ghost predicate Ordered(s: seq<Row>, column: int, ascending: bool)
  {
    forall i, j | 0 <= i < j < |s| :: !Strictly(Cell(s[j], column), Cell(s[i], column), ascending)
  }

  /** The rows whose text in the column is `key`, in their order. */
  function WithKey(s: seq<Row>, column: int, key: string): (t: seq<Row>)
    ensures |t| <= |s|
    decreases |s|
  {
    if s == [] then []
    else WithKey(s[..|s| - 1], column, key) + (if Cell(s[|s| - 1], column) == key then [s[|s| - 1]] else [])
  }

  function Reverse(s: seq<Row>): (r: seq<Row>)
    ensures |r| == |s|
    decreases |s|
  {
    if s == [] then [] else [s[|s| - 1]] + Reverse(s[..|s| - 1])
  }

  // ---------------------------------------------------------------------------
  // What the sort promises

  /** Inserting a row adds exactly that row. */
  lemma InsertedAddsRow(s: seq<Row>, row: Row, column: int, ascending: bool)
    ensures multiset(Inserted(s, row, column, ascending)) == multiset(s) + multiset{row}
  {
    var p := InsertionPoint(s, Cell(row, column), column, ascending, 0);
    assert s == s[..p] + s[p..];
  }

  /** The sort rearranges the rows: it neither loses nor adds nor duplicates one. */
  lemma {:induction false} SortRowsPermutes(rs: seq<Row>, column: int, ascending: bool)
    ensures multiset(SortRows(rs, column, ascending)) == multiset(rs)
    decreases |rs|
  {
    if rs != [] {
      var front := rs[..|rs| - 1];
      SortRowsPermutes(front, column, ascending);
      InsertedAddsRow(SortRows(front, column, ascending), rs[|rs| - 1], column, ascending);
      assert rs == front + [rs[|rs| - 1]];
    }
  }

  /** Inserting into an ordered list keeps it ordered. */
  lemma InsertedOrdered(s: seq<Row>, row: Row, column: int, ascending: bool)
    requires Ordered(s, column, ascending)
    ensures Ordered(Inserted(s, row, column, ascending), column, ascending)
  {
    var key := Cell(row, column);
    var p := InsertionPoint(s, key, column, ascending, 0);
    var t := Inserted(s, row, column, ascending);
    forall i, j | 0 <= i < j < |t|
      ensures !Strictly(Cell(t[j], column), Cell(t[i], column), ascending)
    {
      if j < p {
        assert t[i] == s[i] && t[j] == s[j];
      } else if j == p {
        assert t[i] == s[i] && t[j] == row;
        StrictlyAsymmetric(Cell(s[i], column), key, ascending);
      } else if i == p {
        assert t[i] == row && t[j] == s[j - 1];
        var at := Cell(s[p], column);
        var later := Cell(s[j - 1], column);
        GoesBeforeUnlessStrictly(key, at, ascending);
        if Strictly(later, key, ascending) {
          if key != at {
            StrictlyTotal(key, at, ascending);
            StrictlyTransitive(later, key, at, ascending);
          }
          assert j - 1 > p ==> !Strictly(later, at, ascending);
          StrictlyIrreflexive(at, ascending);
        }
      } else if i < p {
        assert t[i] == s[i] && t[j] == s[j - 1];
      } else {
        assert t[i] == s[i - 1] && t[j] == s[j - 1];
      }
    }
  }

  /**
   * An ascending sort leaves the column's texts non-decreasing, a descending sort
   * non-increasing.
   */
  lemma {:induction false} SortRowsOrdered(rs: seq<Row>, column: int, ascending: bool)
    ensures Ordered(SortRows(rs, column, ascending), column, ascending)
    decreases |rs|
  {
    if rs != [] {
      SortRowsOrdered(rs[..|rs| - 1], column, ascending);
      InsertedOrdered(SortRows(rs[..|rs| - 1], column, ascending), rs[|rs| - 1], column, ascending);
    }
  }

  lemma {:induction false} WithKeyAppend(a: seq<Row>, b: seq<Row>, column: int, key: string)
    ensures WithKey(a + b, column, key) == WithKey(a, column, key) + WithKey(b, column, key)
    decreases |b|
  {
    if b == [] {
      assert a + b == a;
    } else {
      var front, last := b[..|b| - 1], b[|b| - 1];
      var tail := if Cell(last, column) == key then [last] else [];
      WithKeyAppend(a, front, column, key);
      assert (a + b)[..|a + b| - 1] == a + front && (a + b)[|a + b| - 1] == last;
      assert WithKey(a + b, column, key) == WithKey(a + front, column, key) + tail;
      assert WithKey(b, column, key) == WithKey(front, column, key) + tail;
    }
  }

  lemma {:induction false} WithKeyOfNone(s: seq<Row>, column: int, key: string)
    requires forall j | 0 <= j < |s| :: Cell(s[j], column) != key
    ensures WithKey(s, column, key) == []
    decreases |s|
  {
    if s != [] {
      WithKeyOfNone(s[..|s| - 1], column, key);
    }
  }

  lemma WithKeyOfOne(row: Row, column: int, key: string)
    ensures WithKey([row], column, key) == if Cell(row, column) == key then [row] else []
  {
    assert [row][..0] == [];
  }

  /**
   * An inserted row goes before every listed row with the same key: the rows before
   * the insertion point all come strictly before it.
   */
  lemma InsertedWithKey(s: seq<Row>, row: Row, column: int, ascending: bool, key: string)
    ensures WithKey(Inserted(s, row, column, ascending), column, key)
            == (if Cell(row, column) == key then [row] else []) + WithKey(s, column, key)
  {
    var k := Cell(row, column);
    var p := InsertionPoint(s, k, column, ascending, 0);
    var before, after := s[..p], s[p..];
    var ins := Inserted(s, row, column, ascending);
    assert ins == (before + [row]) + after;
    assert before + after == s;
    var wb, wa := WithKey(before, column, key), WithKey(after, column, key);
    WithKeyAppend(before + [row], after, column, key);
    WithKeyAppend(before, [row], column, key);
    WithKeyAppend(before, after, column, key);
    WithKeyOfOne(row, column, key);
    if k == key {
      forall j | 0 <= j < |before| ensures Cell(before[j], column) != key {
        StrictlyIrreflexive(key, ascending);
      }
      WithKeyOfNone(before, column, key);
      assert WithKey(before + [row], column, key) == [row];
      assert WithKey(s, column, key) == wa;
      assert WithKey(ins, column, key) == [row] + wa;
    } else {
      assert WithKey(before + [row], column, key) == wb;
      assert WithKey(ins, column, key) == wb + wa == WithKey(s, column, key);
    }
  }

  /**
   * Rows with equal texts in the column come out in the reverse of their previous
   * order: each row is inserted before the rows already placed with the same text.
   */
  lemma {:induction false} SortRowsReversesTies(rs: seq<Row>, column: int, ascending: bool, key: string)
    ensures WithKey(SortRows(rs, column, ascending), column, key) == Reverse(WithKey(rs, column, key))
    decreases |rs|
  {
    if rs != [] {
      var front := rs[..|rs| - 1];
      var last := rs[|rs| - 1];
      SortRowsReversesTies(front, column, ascending, key);
      InsertedWithKey(SortRows(front, column, ascending), last, column, ascending, key);
      var w := WithKey(front, column, key);
      var sorted := WithKey(SortRows(rs, column, ascending), column, key);
      if Cell(last, column) == key {
        assert WithKey(rs, column, key) == w + [last];
        assert (w + [last])[..|w|] == w;
        assert Reverse(w + [last]) == [last] + Reverse(w);
        assert sorted == [last] + Reverse(w);
      } else {
        assert WithKey(rs, column, key) == w;
        assert sorted == Reverse(w);
      }
    }
  }

  // ---------------------------------------------------------------------------
  // The sort loop

  /** The first position where the row goes before a listed one: one scan, as the sort's inner loop does. */
  method InsertRow(newData: seq<Row>, row: Row, column: int, ascending: bool) returns (t: seq<Row>)
    requires newData != []
    ensures t == Inserted(newData, row, column, ascending)
  {
    ghost var key := Cell(row, column);
    t := newData;
    var i := 0;
    while i < |t|
      invariant t == newData && 0 <= i < |t|
      invariant InsertionPoint(t, key, column, ascending, i) == InsertionPoint(t, key, column, ascending, 0)
    {
      if GoesBefore(Cell(row, column), Cell(t[i], column), ascending) {
        t := t[..i] + [row] + t[i..];
        break;
      } else if i == |t| - 1 {
        assert t[..|t|] == t && t[|t|..] == [];
        t := t + [row];
        break;
      }
      i := i + 1;
    }
  }

  /**
   * The rows placed one at a time into a new list: the first into the empty list, each
   * later one at its insertion point.
   */
  method InsertionSorted(data: seq<Row>, column: int, ascending: bool) returns (newData: seq<Row>)
    ensures newData == SortRows(data, column, ascending)
  {
    newData := [];
    for n := 0 to |data|
      invariant newData == SortRows(data[..n], column, ascending)
    {
      var row := data[n];
      assert data[..n + 1][..n] == data[..n];
      if newData == [] {
        newData := newData + [row];
      } else {
        newData := InsertRow(newData, row, column, ascending);
      }
    }
    assert data[..|data|] == data;
  }

  // ---------------------------------------------------------------------------
  // The table

  class SkiModel {
    var columns: seq<string>
    var rows: seq<Row>
    var sortableColumns: seq<int>

    /** A new table has no columns, no rows and no sortable column. */
    constructor ()
      ensures columns == [] && rows == [] && sortableColumns == []
    {
      columns := [];
      rows := [];
      sortableColumns := [];
    }

    /**
     * The name of a column for the horizontal header's display role; nothing for any
     * other role, orientation or a section past the end. A section equal to the number
     * of columns passes the guard and is not a column.
     */
    function HeaderData(section: int, orientation: int, role: int): (v: Option<string>)
      reads this
      requires role == DisplayRole && orientation == Horizontal && section <= |columns| ==>
                 0 <= section < |columns|
      ensures v.Some? <==> role == DisplayRole && orientation == Horizontal && 0 <= section < |columns|
      ensures v.Some? ==> v.value == columns[section]
    {
      if role != DisplayRole then None
      else if orientation != Horizontal then None
      else if section > |columns| then None
      else Some(columns[section])
    }

    /** The number of rows under the root, and none under a cell. */
    function RowCount(parent: ModelIndex): int
      reads this
    {
      if IsValid(parent) then 0 else |rows|
    }

    /** The number of columns under the root, and none under a cell. */
    function ColumnCount(parent: ModelIndex): int
      reads this
    {
      if IsValid(parent) then 0 else |columns|
    }

    /**
     * The text of a cell for the display role; nothing for an index that is not valid,
     * past the last row or column, or for another role. A row or column equal to the
     * count passes the guards and is not a cell.
     */
    function Data(index: ModelIndex, role: int): (v: Option<string>)
      reads this
      requires IsValid(index) && index.row <= |rows| && index.column <= |columns| && role == DisplayRole ==>
                 index.row < |rows| && index.column < |rows[index.row]|
      ensures v.Some? <==> IsValid(index) && index.row <= |rows| && index.column <= |columns| && role == DisplayRole
      ensures v.Some? ==> v.value == rows[index.row][index.column]
    {
      if !IsValid(index) then None
      else if index.row > |rows| then None
      else if index.column > |columns| then None
      else if role == DisplayRole then Some(rows[index.row][index.column])
      else None
    }

    /** Every row is exactly as wide as the header, as AddRow keeps it. */
    predicate RowsFitHeader()
      reads this
    {
      forall i | 0 <= i < |rows| :: |rows[i]| == |columns|
    }

    /**
     * With every row as wide as the header, the cells a view asks for under the root,
     * a row below RowCount and a column below ColumnCount, are exactly those that have
     * data, away from the one-past-the-end row and column the guards let through.
     */
    lemma CellsOfTheRoot(r: int, c: int)
      requires RowsFitHeader() && r != |rows| && c != |columns|
      ensures Data(Index(r, c), DisplayRole).Some? <==>
                0 <= r < RowCount(Parent(Index(r, c))) && 0 <= c < ColumnCount(Parent(Index(r, c)))
      ensures 0 <= r < RowCount(Parent(Index(r, c))) && 0 <= c < ColumnCount(Parent(Index(r, c))) ==>
                Data(Index(r, c), DisplayRole) == Some(rows[r][c])
    {
    }

    /** Replaces the column names; the rows stay as they are. */
    method SetColumns(cs: seq<string>)
      modifies this
      ensures columns == cs && rows == old(rows) && sortableColumns == old(sortableColumns)
      ensures ColumnCount(Parent(Index(0, 0))) == |cs|
    {
      columns := cs;
    }

    /** Removes every row; the columns stay as they are. */
    method ClearData()
      modifies this
      ensures rows == [] && columns == old(columns) && sortableColumns == old(sortableColumns)
      ensures RowCount(Parent(Index(0, 0))) == 0
    {
      rows := [];
    }

    /** Appends a row exactly as wide as the header, and ignores any other row. */
    method AddRow(row: Row)
      modifies this
      ensures columns == old(columns) && sortableColumns == old(sortableColumns)
      ensures rows == if |row| == |columns| then old(rows) + [row] else old(rows)
      ensures RowCount(Parent(Index(0, 0))) == |old(rows)| + if |row| == |columns| then 1 else 0
      ensures old(RowsFitHeader()) ==> RowsFitHeader()
      ensures |row| == |columns| ==>
                forall c | 0 <= c < |row| :: Data(Index(|old(rows)|, c), DisplayRole) == Some(row[c])
    {
      if |row| != |columns| {
        return;
      }
      rows := rows + [row];
    }

    /** Records which columns may be sorted. */
    method SetSortableColumns(indexes: seq<int>)
      modifies this
      ensures sortableColumns == indexes && columns == old(columns) && rows == old(rows)
    {
      sortableColumns := indexes;
    }

    /**
     * Sorts the rows by a sortable column, ascending or descending; a column that is
     * not sortable, or any other order, leaves the rows as they are.
     */
    method Sort(column: int, order: int)
      requires column in sortableColumns && (order == AscendingOrder || order == DescendingOrder) && |rows| > 1 ==>
                 forall r | r in rows :: 0 <= column < |r|
      modifies this
      ensures columns == old(columns) && sortableColumns == old(sortableColumns)
      ensures rows == if column in sortableColumns && (order == AscendingOrder || order == DescendingOrder)
                      then SortRows(old(rows), column, order == AscendingOrder)
                      else old(rows)
      ensures multiset(rows) == multiset(old(rows))
      ensures column in sortableColumns && order == AscendingOrder ==> Ordered(rows, column, true)
      ensures column in sortableColumns && order == DescendingOrder ==> Ordered(rows, column, false)
    {
      if column in sortableColumns {
        if order == AscendingOrder {
          rows := InsertionSorted(rows, column, true);
          SortRowsPermutes(old(rows), column, true);
          SortRowsOrdered(old(rows), column, true);
        } else if order == DescendingOrder {
          rows := InsertionSorted(rows, column, false);
          SortRowsPermutes(old(rows), column, false);
          SortRowsOrdered(old(rows), column, false);
        }
      }
    }
  }
}
