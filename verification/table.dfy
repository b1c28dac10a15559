/** The accumulating half of src/Widgets/Table.php: headers, discovered
    column keys, rows, and the per-position maximum display widths that
    `setHeaders` and `setRows` maintain through `updateWidth`. */
module Table {
  import opened Text
  import opened Ansi

  /** One entry of a row: its key (a column identifier) and display value. */
  datatype Cell = Cell(key: string, value: string)

  /** A row as the caller passes it: a scalar or a keyed array. */
  datatype Row = Scalar(value: string) | Entries(cells: seq<Cell>)

  /** The table object. `widths` maps a position to its width; a missing
      position reads as 0. Stored rows are already normalised to cells. */
  datatype Table = Table(headers: seq<string>, columns: seq<string>, widths: map<nat, nat>, rows: seq<seq<Cell>>)

  /** A freshly constructed table. */
  const Empty: Table := Table([], [], map[], [])

  function Max(a: nat, b: nat): nat
  {
    if a < b then b else a
  }

  /** A scalar row becomes a one-entry row with key 0. */
  function CellsOf(row: Row): seq<Cell>
  {
    match row
    case Scalar(v) => [Cell("0", v)]
    case Entries(cells) => cells
  }

  function KeysOf(cells: seq<Cell>): (keys: seq<string>)
    ensures |keys| == |cells|
    ensures forall i :: 0 <= i < |cells| ==> keys[i] == cells[i].key
  {
    seq(|cells|, i requires 0 <= i < |cells| => cells[i].key)
  }

  /** `getWidth`. */
  function Width(widths: map<nat, nat>, column: nat): nat
  {
    if column in widths then widths[column] else 0
  }

  /** `updateWidth`: raises the width at one position to at least `w`, and
      never lowers it; every other position keeps its width. */
  function UpdateWidth(widths: map<nat, nat>, column: nat, w: nat): (r: map<nat, nat>)
    ensures Width(r, column) == Max(Width(widths, column), w)
    ensures forall i: nat :: i != column ==> Width(r, i) == Width(widths, i)
  {
    if w > Width(widths, column) then widths[column := w] else widths
  }

  /** What a cell charges to its position: the display lengths of its key
      and of its value. */
  function Measure(c: Cell): nat
  {
    Max(Length(c.key), Length(c.value))
  }

  // ---------------------------------------------------------------------
  // setHeaders

  /** The loop of `setHeaders` from position `column` on. */
  function AddHeaders(t: Table, hs: seq<string>, column: nat): (r: Table)
    ensures r.columns == t.columns && r.rows == t.rows
    ensures r.headers == AppendNew(t.headers, hs)
    ensures forall i: nat :: Width(r.widths, i)
              == if column <= i < column + |hs| then Max(Width(t.widths, i), Length(hs[i - column]))
                 else Width(t.widths, i)
    decreases |hs|
  {
    if |hs| == 0 then t
    else
      var t1 := t.(widths := UpdateWidth(t.widths, column, Length(hs[0])),
                   headers := if hs[0] in t.headers then t.headers else t.headers + [hs[0]]);
      AddHeaders(t1, hs[1..], column + 1)
  }

  /** `setHeaders`: header i charges its display length to position i,
      and is listed only if no equal header is listed yet. */
  function SetHeaders(t: Table, hs: seq<string>): (r: Table)
    ensures r.columns == t.columns && r.rows == t.rows
    ensures forall i: nat :: Width(t.widths, i) <= Width(r.widths, i)
  {
    AddHeaders(t, hs, 0)
  }

  // ---------------------------------------------------------------------
  // setRows

  /** The inner loop of `setRows` over one row's cells from position
      `column` on: key width, value width, then the key is recorded. */
  function AddCells(t: Table, cells: seq<Cell>, column: nat): (r: Table)
    ensures r.headers == t.headers && r.rows == t.rows
    ensures r.columns == AppendNew(t.columns, KeysOf(cells))
    ensures forall i: nat :: Width(r.widths, i)
              == if column <= i < column + |cells| then Max(Width(t.widths, i), Measure(cells[i - column]))
                 else Width(t.widths, i)
    decreases |cells|
  {
    if |cells| == 0 then t
    else
      var c := cells[0];
      var w1 := UpdateWidth(t.widths, column, Length(c.key));
      var w2 := UpdateWidth(w1, column, Length(c.value));
      MeasureUpdates(t.widths, column, c);
      var t1 := t.(widths := w2, columns := if c.key in t.columns then t.columns else t.columns + [c.key]);
      assert KeysOf(cells)[1..] == KeysOf(cells[1..]);
      assert AppendNew(t.columns, KeysOf(cells)) == AppendNew(t1.columns, KeysOf(cells[1..]));
      var r := AddCells(t1, cells[1..], column + 1);
      CellWidthsStep(t.widths, w2, r.widths, column, cells);
      r
  }

  /** Charging the key and then the value of a cell charges its measure. */
  lemma MeasureUpdates(widths: map<nat, nat>, column: nat, c: Cell)
    ensures var r := UpdateWidth(UpdateWidth(widths, column, Length(c.key)), column, Length(c.value));
            Width(r, column) == Max(Width(widths, column), Measure(c)) &&
            forall i: nat :: i != column ==> Width(r, i) == Width(widths, i)
  {
  }

  lemma CellWidthsStep(w: map<nat, nat>, w2: map<nat, nat>, r: map<nat, nat>, column: nat, cells: seq<Cell>)
    requires |cells| > 0
    requires Width(w2, column) == Max(Width(w, column), Measure(cells[0]))
    requires forall i: nat :: i != column ==> Width(w2, i) == Width(w, i)
    requires forall i: nat :: Width(r, i)
               == if column + 1 <= i < column + 1 + |cells[1..]| then Max(Width(w2, i), Measure(cells[1..][i - (column + 1)]))
                  else Width(w2, i)
    ensures forall i: nat :: Width(r, i)
              == if column <= i < column + |cells| then Max(Width(w, i), Measure(cells[i - column]))
                 else Width(w, i)
  {
    forall i: nat
      ensures Width(r, i)
              == if column <= i < column + |cells| then Max(Width(w, i), Measure(cells[i - column]))
                 else Width(w, i)
    {
      if column + 1 <= i < column + |cells| {
        assert cells[1..][i - (column + 1)] == cells[i - column];
      }
    }
  }

  /** One iteration of the outer loop of `setRows`. */
  function AddRow(t: Table, row: Row): Table
  {
    var cells := CellsOf(row);
    var t1 := AddCells(t, cells, 0);
    t1.(rows := t1.rows + [cells])
  }

  /** `setRows`. */
  function SetRows(t: Table, rows: seq<Row>): (r: Table)
    ensures r.headers == t.headers
    ensures |r.rows| == |t.rows| + |rows|
    decreases |rows|
  {
    if |rows| == 0 then t else SetRows(AddRow(t, rows[0]), rows[1..])
  }

  // ---------------------------------------------------------------------
  // Reference definitions

  /** What the cells of a row charge to position i (0 if the row is shorter). */
  function RowMeasure(cells: seq<Cell>, i: nat): nat
  {
    if i < |cells| then Measure(cells[i]) else 0
  }

  /** The largest charge any of the rows makes to position i. */
  function ColumnMax(rows: seq<Row>, i: nat): nat
  {
    if |rows| == 0 then 0 else Max(RowMeasure(CellsOf(rows[0]), i), ColumnMax(rows[1..], i))
  }

  /** What the header list charges to position i. */
  function HeaderMeasure(hs: seq<string>, i: nat): nat
  {
    if i < |hs| then Length(hs[i]) else 0
  }

  function AllCells(rows: seq<Row>): (r: seq<seq<Cell>>)
    ensures |r| == |rows|
    ensures forall j :: 0 <= j < |rows| ==> r[j] == CellsOf(rows[j])
  {
    if |rows| == 0 then [] else [CellsOf(rows[0])] + AllCells(rows[1..])
  }

  function AllKeys(rows: seq<Row>): seq<string>
  {
    if |rows| == 0 then [] else KeysOf(CellsOf(rows[0])) + AllKeys(rows[1..])
  }

  // ---------------------------------------------------------------------
  // What setHeaders and setRows compute

  /** `setHeaders` raises width i to the header's display length; the
      header list gains the new labels, deduplicated in first-occurrence
      order; nothing else changes. */
  lemma SetHeadersSpec(t: Table, hs: seq<string>)
    requires NoDups(t.headers)
    ensures SetHeaders(t, hs).columns == t.columns && SetHeaders(t, hs).rows == t.rows
    ensures SetHeaders(t, hs).headers == FirstOccurrences(t.headers + hs)
    ensures forall i: nat :: Width(SetHeaders(t, hs).widths, i) == Max(Width(t.widths, i), HeaderMeasure(hs, i))
  {
    AppendNewDedups(t.headers, hs);
  }

  /** `setRows` raises width i to the largest charge of the new rows at
      position i; rows are appended normalised; the column list gains the
      new keys, deduplicated in first-occurrence order. */
  lemma SetRowsSpec(t: Table, rows: seq<Row>)
    requires NoDups(t.columns)
    ensures SetRows(t, rows).headers == t.headers
    ensures SetRows(t, rows).rows == t.rows + AllCells(rows)
    ensures SetRows(t, rows).columns == FirstOccurrences(t.columns + AllKeys(rows))
    ensures forall i: nat :: Width(SetRows(t, rows).widths, i) == Max(Width(t.widths, i), ColumnMax(rows, i))
  {
    SetRowsStored(t, rows);
    SetRowsColumns(t, rows);
    AppendNewDedups(t.columns, AllKeys(rows));
    SetRowsWidths(t, rows);
  }

  lemma {:induction false} SetRowsStored(t: Table, rows: seq<Row>)
    ensures SetRows(t, rows).headers == t.headers
    ensures SetRows(t, rows).rows == t.rows + AllCells(rows)
    decreases |rows|
  {
    if |rows| == 0 {
      assert t.rows + AllCells(rows) == t.rows;
    } else {
      var x, rest := CellsOf(rows[0]), AllCells(rows[1..]);
      assert AllCells(rows) == [x] + rest;
      assert (t.rows + [x]) + rest == t.rows + ([x] + rest);
      AddRowStored(t, rows[0]);
      SetRowsStored(AddRow(t, rows[0]), rows[1..]);
    }
  }

  lemma AddRowStored(t: Table, row: Row)
    ensures AddRow(t, row).headers == t.headers
    ensures AddRow(t, row).rows == t.rows + [CellsOf(row)]
  {
  }

  lemma {:induction false} SetRowsColumns(t: Table, rows: seq<Row>)
    ensures SetRows(t, rows).columns == AppendNew(t.columns, AllKeys(rows))
    decreases |rows|
  {
    if |rows| > 0 {
      var t1 := AddRow(t, rows[0]);
      SetRowsColumns(t1, rows[1..]);
      AppendNewAppend(t.columns, KeysOf(CellsOf(rows[0])), AllKeys(rows[1..]));
    }
  }

  lemma {:induction false} SetRowsWidths(t: Table, rows: seq<Row>)
    ensures forall i: nat :: Width(SetRows(t, rows).widths, i) == Max(Width(t.widths, i), ColumnMax(rows, i))
    decreases |rows|
  {
    if |rows| > 0 {
      var t1 := AddRow(t, rows[0]);
      SetRowsWidths(t1, rows[1..]);
      forall i: nat
        ensures Width(SetRows(t, rows).widths, i) == Max(Width(t.widths, i), ColumnMax(rows, i))
      {
        assert Width(t1.widths, i) == Max(Width(t.widths, i), RowMeasure(CellsOf(rows[0]), i));
      }
    }
  }

  /** `updateWidth` only raises: no width ever decreases. */
  lemma WidthsNeverDecrease(t: Table, hs: seq<string>, rows: seq<Row>)
    ensures forall i: nat :: Width(t.widths, i) <= Width(SetHeaders(t, hs).widths, i)
    ensures forall i: nat :: Width(t.widths, i) <= Width(SetRows(t, rows).widths, i)
  {
    SetRowsWidths(t, rows);
  }

  /** The table `Console::table` builds (rows first, then headers if any):
      width i is the largest display length among header i, and the key
      and value at position i of every row; 0 when there is none. */
  lemma ConsoleTableWidths(rows: seq<Row>, hs: seq<string>)
    ensures forall i: nat :: Width(SetHeaders(SetRows(Empty, rows), hs).widths, i)
                            == Max(HeaderMeasure(hs, i), ColumnMax(rows, i))
    ensures forall i: nat :: Width(SetRows(SetHeaders(Empty, hs), rows).widths, i)
                            == Max(HeaderMeasure(hs, i), ColumnMax(rows, i))
  {
    RowsThenHeadersWidths(rows, hs);
    HeadersThenRowsWidths(rows, hs);
  }

  lemma RowsThenHeadersWidths(rows: seq<Row>, hs: seq<string>)
    ensures forall i: nat :: Width(SetHeaders(SetRows(Empty, rows), hs).widths, i)
                            == Max(HeaderMeasure(hs, i), ColumnMax(rows, i))
  {
    SetRowsWidths(Empty, rows);
    var t := SetRows(Empty, rows);
    assert forall i: nat :: Width(SetHeaders(t, hs).widths, i) == Max(Width(t.widths, i), HeaderMeasure(hs, i));
  }

  lemma HeadersThenRowsWidths(rows: seq<Row>, hs: seq<string>)
    ensures forall i: nat :: Width(SetRows(SetHeaders(Empty, hs), rows).widths, i)
                            == Max(HeaderMeasure(hs, i), ColumnMax(rows, i))
  {
    SetRowsWidths(SetHeaders(Empty, hs), rows);
  }

  // ---------------------------------------------------------------------
  // The invariant every reachable table keeps

  /** Headers and column keys are duplicate-free; columns exist only once
      a row does; every stored cell's key is a column; and every stored
      cell fits the width of its position. */
  ghost predicate Valid(t: Table)
  {
    && NoDups(t.headers)
    && NoDups(t.columns)
    && (|t.columns| > 0 ==> |t.rows| > 0)
    && (forall j, i :: 0 <= j < |t.rows| && 0 <= i < |t.rows[j]| ==> t.rows[j][i].key in t.columns)
    && (forall j, i :: 0 <= j < |t.rows| && 0 <= i < |t.rows[j]| ==> Measure(t.rows[j][i]) <= Width(t.widths, i))
  }

  lemma EmptyValid()
    ensures Valid(Empty)
  {
  }

  lemma SetHeadersValid(t: Table, hs: seq<string>)
    requires Valid(t)
    ensures Valid(SetHeaders(t, hs))
  {
    var r := SetHeaders(t, hs);
    forall j, i | 0 <= j < |r.rows| && 0 <= i < |r.rows[j]|
      ensures Measure(r.rows[j][i]) <= Width(r.widths, i)
    {
      assert Width(t.widths, i) <= Width(r.widths, i);
    }
  }

  lemma AddRowValid(t: Table, row: Row)
    requires Valid(t)
    ensures Valid(AddRow(t, row))
  {
    var cells := CellsOf(row);
    var r := AddRow(t, row);
    AddRowParts(t, row);
    forall j, i | 0 <= j < |r.rows| && 0 <= i < |r.rows[j]|
      ensures r.rows[j][i].key in r.columns
      ensures Measure(r.rows[j][i]) <= Width(r.widths, i)
    {
      if j == |t.rows| {
        assert r.rows[j] == cells;
      } else {
        assert r.rows[j] == t.rows[j];
        assert Width(t.widths, i) <= Width(r.widths, i);
        assert t.rows[j][i].key in t.columns;
      }
    }
  }

  /** What one `setRows` iteration does to the parts `Valid` speaks of. */
  lemma AddRowParts(t: Table, row: Row)
    requires NoDups(t.columns)
    ensures AddRow(t, row).headers == t.headers
    ensures AddRow(t, row).rows == t.rows + [CellsOf(row)]
    ensures NoDups(AddRow(t, row).columns)
    ensures forall x :: x in t.columns ==> x in AddRow(t, row).columns
    ensures forall i :: 0 <= i < |CellsOf(row)| ==> CellsOf(row)[i].key in AddRow(t, row).columns
    ensures forall i: nat :: Width(t.widths, i) <= Width(AddRow(t, row).widths, i)
    ensures forall i :: 0 <= i < |CellsOf(row)| ==> Measure(CellsOf(row)[i]) <= Width(AddRow(t, row).widths, i)
  {
    var cells := CellsOf(row);
    var r := AddRow(t, row);
    assert r.columns == AppendNew(t.columns, KeysOf(cells));
    assert r.columns[..|t.columns|] == t.columns;
    forall x | x in t.columns
      ensures x in r.columns
    {
      assert x in r.columns[..|t.columns|];
    }
    forall i | 0 <= i < |cells|
      ensures cells[i].key in r.columns
    {
      assert KeysOf(cells)[i] == cells[i].key;
    }
  }

  lemma {:induction false} SetRowsValid(t: Table, rows: seq<Row>)
    requires Valid(t)
    ensures Valid(SetRows(t, rows))
    decreases |rows|
  {
    if |rows| > 0 {
      AddRowValid(t, rows[0]);
      SetRowsValid(AddRow(t, rows[0]), rows[1..]);
    }
  }
}
