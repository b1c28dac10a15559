/** Concrete tables: the two layouts the console's `table` command is
    expected to print, and two layouts where the widths the table records
    do not line up with what it prints. */
module TableExamples {
  import opened Text
  import opened Ansi
  import opened Table
  import opened TableRender
  import Style

  /** `Console::table`: rows first, then headers when any are given. */
  function ConsoleTable(rows: seq<Row>, hs: seq<string>): Table
  {
    var t := SetRows(Empty, rows);
    if |hs| > 0 then SetHeaders(t, hs) else t
  }

  /** Two scalar items of five escape-free characters make one column
      keyed "0", five wide, holding the two items. */
  lemma ScalarsTable(rows: seq<Row>, a: string, b: string)
    requires rows == [Scalar(a), Scalar(b)] && |a| == 5 && |b| == 5 && ESC !in a && ESC !in b
    ensures SetRows(Empty, rows).headers == []
    ensures SetRows(Empty, rows).columns == ["0"]
    ensures SetRows(Empty, rows).rows == [[Cell("0", a)], [Cell("0", b)]]
    ensures Width(SetRows(Empty, rows).widths, 0) == 5
    ensures Valid(SetRows(Empty, rows))
  {
    ScalarsStored(rows, a, b);
    ScalarsColumns(rows, a, b);
    ScalarsWidth(rows, a, b);
    EmptyValid();
    SetRowsValid(Empty, rows);
  }

  lemma ScalarsStored(rows: seq<Row>, a: string, b: string)
    requires rows == [Scalar(a), Scalar(b)]
    ensures SetRows(Empty, rows).headers == []
    ensures SetRows(Empty, rows).rows == [[Cell("0", a)], [Cell("0", b)]]
  {
    SetRowsStored(Empty, rows);
    var cs := AllCells(rows);
    assert cs[0] == [Cell("0", a)] && cs[1] == [Cell("0", b)];
    assert [] + cs == [[Cell("0", a)], [Cell("0", b)]];
  }

  lemma ScalarsColumns(rows: seq<Row>, a: string, b: string)
    requires rows == [Scalar(a), Scalar(b)]
    ensures SetRows(Empty, rows).columns == ["0"]
  {
    SetRowsColumns(Empty, rows);
    TwoScalarKeys(rows, a, b);
    AppendNewZeros();
  }

  /** Each scalar item contributes the one key "0". */
  lemma TwoScalarKeys(rows: seq<Row>, a: string, b: string)
    requires rows == [Scalar(a), Scalar(b)]
    ensures AllKeys(rows) == ["0", "0"]
  {
    assert rows[1..][1..] == [];
    assert AllKeys(rows[1..]) == ["0"] + AllKeys(rows[1..][1..]);
    assert AllKeys(rows) == ["0"] + ["0"];
  }

  lemma ScalarsWidth(rows: seq<Row>, a: string, b: string)
    requires rows == [Scalar(a), Scalar(b)] && |a| == 5 && |b| == 5 && ESC !in a && ESC !in b
    ensures Width(SetRows(Empty, rows).widths, 0) == 5
  {
    SetRowsWidths(Empty, rows);
    assert Length("0") == 1 && Length(a) == 5 && Length(b) == 5;
    assert rows[1..][1..] == [];
    assert RowMeasure(CellsOf(rows[1]), 0) == 5;
    assert ColumnMax(rows[1..], 0) == 5;
    assert RowMeasure(CellsOf(rows[0]), 0) == 5;
    assert ColumnMax(rows, 0) == 5;
  }

  lemma AppendNewZeros()
    ensures AppendNew([], ["0", "0"]) == ["0"]
  {
    var z: seq<string> := ["0", "0"];
    assert z[1..][1..] == [];
  }

  /** The border of a single column five wide. */
  lemma BorderOfFive(reg: Style.Registry, t: Table)
    requires "" !in reg
    requires |t.columns| == 1 && Width(t.widths, 0) == 5
    ensures BorderLine(reg, t) == "+-------+"
  {
    BorderLineShape(reg, t);
    var seg := Repeat(Horizontal, 7);
    assert seg == "-------";
    assert BorderPieces(reg, t) == [seg + [Cross]];
    ConcatSingle(seg + [Cross]);
  }

  /** A row of one five-character item in a column five wide. */
  lemma RowOfFive(reg: Style.Registry, t: Table, j: nat, v: string)
    requires "" !in reg
    requires Valid(t) && j < |t.rows| && t.rows[j] == [Cell("0", v)]
    requires Width(t.widths, 0) == 5 && |v| == 5 && ESC !in v
    ensures RowLine(reg, t, t.rows[j]) == "| " + v + " |"
  {
    SingleCellRow(reg, t, t.rows[j]);
    StoredCellShape(reg, t, j, 0);
    assert Length(v) == 5;
    assert Repeat(' ', 0) == "";
    assert [Vertical] + ([' '] + v + "" + [' ']) + [Vertical] == "| " + v + " |";
  }

  /** The built-in registry has no style named "". */
  lemma DefaultsUnnamed()
    ensures "" !in Style.Defaults
  {
    Style.DefaultStyles();
  }

  /** `table(['test1', 'test2'])` prints a border, the two items and a border.
      The items are parameters pinned by the precondition rather than
      literals in the body: with literals the verifier unfolds every
      function applied to them and the proof exceeds its resource budget. */
  lemma ConsoleTableNoHeaders(a: string, b: string)
    requires a == "test1" && b == "test2"
    ensures Split(Render(Style.Defaults, ConsoleTable([Scalar(a), Scalar(b)], [])), '\n')
         == ["+-------+", "| test1 |", "| test2 |", "+-------+"]
  {
    assert "| " + a + " |" == "| test1 |";
    assert "| " + b + " |" == "| test2 |";
    assert |a| == 5 && |b| == 5 && ESC !in a && ESC !in b && '\n' !in a && '\n' !in b;
    DefaultsUnnamed();
    TwoItemsNoHeaders(Style.Defaults, [Scalar(a), Scalar(b)], a, b);
  }

  lemma TwoItemsNoHeaders(reg: Style.Registry, rows: seq<Row>, a: string, b: string)
    requires "" !in reg
    requires rows == [Scalar(a), Scalar(b)] && |a| == 5 && |b| == 5
    requires ESC !in a && ESC !in b && '\n' !in a && '\n' !in b
    ensures Split(Render(reg, ConsoleTable(rows, [])), '\n')
         == ["+-------+", "| " + a + " |", "| " + b + " |", "+-------+"]
  {
    ScalarsTable(rows, a, b);
    PlainTwoRows(reg, ConsoleTable(rows, []), a, b);
  }

  /** The one-column table of two five-character items, without headers. */
  lemma PlainTwoRows(reg: Style.Registry, t: Table, a: string, b: string)
    requires "" !in reg
    requires t.headers == [] && t.columns == ["0"] && t.rows == [[Cell("0", a)], [Cell("0", b)]]
    requires Width(t.widths, 0) == 5 && Valid(t)
    requires |a| == 5 && |b| == 5 && ESC !in a && ESC !in b && '\n' !in a && '\n' !in b
    ensures Split(Render(reg, t), '\n') == ["+-------+", "| " + a + " |", "| " + b + " |", "+-------+"]
  {
    BorderOfFive(reg, t);
    RowOfFive(reg, t, 0, a);
    RowOfFive(reg, t, 1, b);
    var border, x, y := "+-------+", "| " + a + " |", "| " + b + " |";
    PlainLayoutOfTwo(reg, t, border, x, y);
    SplitsBack(reg, t, [border, x, y, border], border, "", x, y);
  }

  /** Rendered lines that hold no newline come back from splitting the text. */
  lemma SplitsBack(reg: Style.Registry, t: Table, ls: seq<string>, border: string, header: string, x: string, y: string)
    requires Lines(reg, t) == ls
    requires ls == [border, x, y, border] || ls == [border, header, border, x, y, border]
    requires '\n' !in border && '\n' !in header && '\n' !in x && '\n' !in y
    ensures Split(Render(reg, t), '\n') == ls
  {
    NoNewlines(ls, border, header, x, y);
    RenderSplits(reg, t, ls);
  }

  lemma NoNewlines(ls: seq<string>, border: string, header: string, x: string, y: string)
    requires ls == [border, x, y, border] || ls == [border, header, border, x, y, border]
    requires '\n' !in border && '\n' !in header && '\n' !in x && '\n' !in y
    ensures |ls| > 0 && forall i :: 0 <= i < |ls| ==> '\n' !in ls[i]
  {
  }

  lemma PlainLayoutOfTwo(reg: Style.Registry, t: Table, border: string, x: string, y: string)
    requires |t.rows| == 2 && |t.headers| == 0
    requires BorderLine(reg, t) == border && RowLine(reg, t, t.rows[0]) == x && RowLine(reg, t, t.rows[1]) == y
    ensures Lines(reg, t) == [border, x, y, border]
  {
    RowLinesOfTwo(reg, t, x, y);
    RenderLayoutPlain(reg, t);
  }

  /** `table(['test1', 'test2'], ['Test'])` adds a top border and the
      "info"-styled header, padded to the column's width, above them. The
      strings are pinned parameters for the same reason as above. */
  lemma ConsoleTableWithHeaders(a: string, b: string, h: string)
    requires a == "test1" && b == "test2" && h == "Test"
    ensures Split(Render(Style.Defaults, ConsoleTable([Scalar(a), Scalar(b)], [h])), '\n')
         == ["+-------+", "| " + Style.ApplyStyle(Style.Defaults, h + " ", "info") + " |",
             "+-------+", "| test1 |", "| test2 |", "+-------+"]
  {
    assert "| " + a + " |" == "| test1 |";
    assert "| " + b + " |" == "| test2 |";
    assert |a| == 5 && |b| == 5 && ESC !in a && ESC !in b && '\n' !in a && '\n' !in b;
    assert |h| == 4 && ESC !in h && '\n' !in h;
    DefaultsUnnamed();
    TwoItemsWithHeader(Style.Defaults, [Scalar(a), Scalar(b)], a, b, h);
  }

  lemma TwoItemsWithHeader(reg: Style.Registry, rows: seq<Row>, a: string, b: string, h: string)
    requires "" !in reg
    requires rows == [Scalar(a), Scalar(b)] && |a| == 5 && |b| == 5
    requires ESC !in a && ESC !in b && '\n' !in a && '\n' !in b
    requires |h| == 4 && ESC !in h && '\n' !in h
    ensures Split(Render(reg, ConsoleTable(rows, [h])), '\n')
         == ["+-------+", "| " + Style.ApplyStyle(reg, h + " ", "info") + " |",
             "+-------+", "| " + a + " |", "| " + b + " |", "+-------+"]
  {
    HeadedTable(rows, a, b, h);
    HeadedTwoRows(reg, ConsoleTable(rows, [h]), a, b, h);
  }

  /** The one-column table of two five-character items under one header. */
  lemma HeadedTwoRows(reg: Style.Registry, t: Table, a: string, b: string, h: string)
    requires "" !in reg
    requires t.headers == [h] && t.columns == ["0"] && t.rows == [[Cell("0", a)], [Cell("0", b)]]
    requires Width(t.widths, 0) == 5 && Valid(t)
    requires |a| == 5 && |b| == 5 && ESC !in a && ESC !in b && '\n' !in a && '\n' !in b
    requires |h| == 4 && ESC !in h && '\n' !in h
    ensures Split(Render(reg, t), '\n')
         == ["+-------+", "| " + Style.ApplyStyle(reg, h + " ", "info") + " |",
             "+-------+", "| " + a + " |", "| " + b + " |", "+-------+"]
  {
    var border, header := "+-------+", "| " + Style.ApplyStyle(reg, h + " ", "info") + " |";
    var x, y := "| " + a + " |", "| " + b + " |";
    HeadedLinesList(reg, t, a, b, h);
    SplitsBack(reg, t, [border, header, border, x, y, border], border, header, x, y);
  }

  lemma HeadedLinesList(reg: Style.Registry, t: Table, a: string, b: string, h: string)
    requires "" !in reg
    requires t.headers == [h] && t.columns == ["0"] && t.rows == [[Cell("0", a)], [Cell("0", b)]]
    requires Width(t.widths, 0) == 5 && Valid(t)
    requires |a| == 5 && |b| == 5 && ESC !in a && ESC !in b
    requires |h| == 4 && ESC !in h && '\n' !in h
    ensures Lines(reg, t)
         == ["+-------+", "| " + Style.ApplyStyle(reg, h + " ", "info") + " |",
             "+-------+", "| " + a + " |", "| " + b + " |", "+-------+"]
    ensures '\n' !in "| " + Style.ApplyStyle(reg, h + " ", "info") + " |"
  {
    HeadedLines(reg, t, a, b, h);
    HeadedLayoutOfTwo(reg, t, "+-------+", "| " + Style.ApplyStyle(reg, h + " ", "info") + " |", "| " + a + " |", "| " + b + " |");
  }

  lemma HeadedLines(reg: Style.Registry, t: Table, a: string, b: string, h: string)
    requires "" !in reg
    requires t.headers == [h] && t.columns == ["0"] && t.rows == [[Cell("0", a)], [Cell("0", b)]]
    requires Width(t.widths, 0) == 5 && Valid(t)
    requires |a| == 5 && |b| == 5 && ESC !in a && ESC !in b
    requires |h| == 4 && ESC !in h && '\n' !in h
    ensures BorderLine(reg, t) == "+-------+"
    ensures HeaderLine(reg, t) == "| " + Style.ApplyStyle(reg, h + " ", "info") + " |"
    ensures RowLine(reg, t, t.rows[0]) == "| " + a + " |"
    ensures RowLine(reg, t, t.rows[1]) == "| " + b + " |"
    ensures '\n' !in HeaderLine(reg, t)
  {
    BorderOfFive(reg, t);
    RowOfFive(reg, t, 0, a);
    RowOfFive(reg, t, 1, b);
    HeaderOfFive(reg, t, h);
    assert '\n' !in t.columns[0];
    HeaderLineExcludes(reg, t, '\n');
  }

  /** Adding the header to the two-item table keeps its column, rows and
      width: the four-character header is narrower than the items. */
  lemma HeadedTable(rows: seq<Row>, a: string, b: string, h: string)
    requires rows == [Scalar(a), Scalar(b)] && |a| == 5 && |b| == 5 && ESC !in a && ESC !in b
    requires |h| == 4 && ESC !in h
    ensures ConsoleTable(rows, [h]).headers == [h]
    ensures ConsoleTable(rows, [h]).columns == ["0"]
    ensures ConsoleTable(rows, [h]).rows == [[Cell("0", a)], [Cell("0", b)]]
    ensures Width(ConsoleTable(rows, [h]).widths, 0) == 5
    ensures Valid(ConsoleTable(rows, [h]))
  {
    var hs := [h];
    var t0 := SetRows(Empty, rows);
    ScalarsTable(rows, a, b);
    SetHeadersSpec(t0, hs);
    SetHeadersValid(t0, hs);
    assert hs[..0] == [];
    assert FirstOccurrences(hs) == hs;
    assert Length(h) == 4;
    assert HeaderMeasure(hs, 0) == 4;
  }

  lemma HeadedLayoutOfTwo(reg: Style.Registry, t: Table, border: string, header: string, x: string, y: string)
    requires |t.rows| == 2 && |t.headers| > 0 && |t.columns| > 0
    requires BorderLine(reg, t) == border && HeaderLine(reg, t) == header
    requires RowLine(reg, t, t.rows[0]) == x && RowLine(reg, t, t.rows[1]) == y
    ensures Lines(reg, t) == [border, header, border, x, y, border]
  {
    RowLinesOfTwo(reg, t, x, y);
    LayoutWithHeaderLine(reg, t);
  }

  lemma RowLinesOfTwo(reg: Style.Registry, t: Table, x: string, y: string)
    requires |t.rows| == 2
    requires RowLine(reg, t, t.rows[0]) == x && RowLine(reg, t, t.rows[1]) == y
    ensures RowLines(reg, t) == [x, y]
  {
  }

  lemma HeaderOfFive(reg: Style.Registry, t: Table, h: string)
    requires t.headers == [h] && t.columns == ["0"] && Width(t.widths, 0) == 5
    requires |h| == 4 && ESC !in h
    ensures HeaderLine(reg, t) == "| " + Style.ApplyStyle(reg, h + " ", "info") + " |"
  {
    SingleHeaderCell(reg, t);
    HeaderCellOfFive(reg, t.widths, h);
    Reframe(Style.ApplyStyle(reg, h + " ", "info"));
  }

  /** The header cell of a four-character title in a column five wide. */
  lemma HeaderCellOfFive(reg: Style.Registry, widths: map<nat, nat>, h: string)
    requires Width(widths, 0) == 5 && |h| == 4 && ESC !in h
    ensures RenderCell(reg, widths, 0, h, ' ', "info") == [' '] + Style.ApplyStyle(reg, h + " ", "info") + [' ']
  {
    PaddedHeader(h);
  }

  lemma Reframe(styled: string)
    ensures [Vertical] + ([' '] + styled + [' ']) + [Vertical] == "| " + styled + " |"
  {
  }

  /** The header line of a one-column table: its title's cell between bars. */
  lemma SingleHeaderCell(reg: Style.Registry, t: Table)
    requires |t.columns| == 1 && |t.headers| >= 1
    ensures HeaderLine(reg, t) == [Vertical] + RenderCell(reg, t.widths, 0, t.headers[0], ' ', "info") + [Vertical]
  {
    var cell := RenderCell(reg, t.widths, 0, t.headers[0], ' ', "info");
    var hp := HeaderPieces(reg, t);
    assert Title(t, 0) == t.headers[0];
    assert hp[0] == cell + [Vertical];
    assert hp == [cell + [Vertical]];
    ConcatSingle(cell + [Vertical]);
  }

  lemma PaddedHeader(h: string)
    requires |h| == 4 && ESC !in h
    ensures PadTo(h, ' ', 5) == h + " "
  {
    assert Length(h) == 4;
    assert Repeat(' ', 1) == " ";
  }

  // ---------------------------------------------------------------------
  // Two layouts where recorded widths and printed cells disagree

  /** A repeated header is listed once, but the headers after it keep
      charging the positions they were given: the later header moves one
      position left in the header line while its width stays behind. */
  lemma RepeatedHeaderShifts(x: string, y: string)
    requires x != y && |x| < |y| && ESC !in x && ESC !in y
    ensures SetHeaders(Empty, [x, x, y]).headers == [x, y]
    ensures Width(SetHeaders(Empty, [x, x, y]).widths, 1) == |x| < Length(y)
    ensures Width(SetHeaders(Empty, [x, x, y]).widths, 2) == Length(y)
  {
    var hs := [x, x, y];
    DedupRepeated(x, y);
    assert Length(x) == |x| && Length(y) == |y|;
    assert Width(Empty.widths, 1) == 0 && Width(Empty.widths, 2) == 0;
  }

  lemma DedupRepeated(x: string, y: string)
    requires x != y
    ensures AppendNew([], [x, x, y]) == [x, y]
  {
    DedupFirst(x, y);
    DedupSecond(x, y);
    DedupThird(x, y);
  }

  lemma DedupFirst(x: string, y: string)
    ensures AppendNew([], [x, x, y]) == AppendNew([x], [x, y])
  {
    var hs := [x, x, y];
    AppendNewStep([], hs);
    assert [] + [x] == [x] && hs[1..] == [x, y];
  }

  lemma DedupSecond(x: string, y: string)
    ensures AppendNew([x], [x, y]) == AppendNew([x], [y])
  {
    AppendNewStep([x], [x, y]);
    assert [x] + [] == [x] && [x, y][1..] == [y];
  }

  lemma DedupThird(x: string, y: string)
    requires x != y
    ensures AppendNew([x], [y]) == [x, y]
  {
    AppendNewStep([x], [y]);
    assert [x] + [y] == [x, y] && [y][1..] == [];
  }

  /** A column whose key and values are all empty has width 0, yet its
      border segment is three dashes (the dash it starts from counts) while
      its cells are two spaces: the row is one character short. */
  lemma EmptyColumnMisaligns(key: string, value: string)
    requires |key| == 0 && |value| == 0
    ensures BorderLine(Style.Defaults, SetRows(Empty, [Entries([Cell(key, value)])])) == "+---+"
    ensures |SetRows(Empty, [Entries([Cell(key, value)])]).rows| == 1
    ensures RowLine(Style.Defaults, SetRows(Empty, [Entries([Cell(key, value)])]),
                    SetRows(Empty, [Entries([Cell(key, value)])]).rows[0]) == "|  |"
  {
    var t := SetRows(Empty, [Entries([Cell(key, value)])]);
    EmptyColumnTable(key, value);
    DefaultsUnnamed();
    EmptyColumnBorder(Style.Defaults, t);
    EmptyColumnRow(Style.Defaults, t);
  }

  lemma EmptyColumnBorder(reg: Style.Registry, t: Table)
    requires "" !in reg
    requires |t.columns| == 1 && Width(t.widths, 0) == 0
    ensures BorderLine(reg, t) == "+---+"
  {
    BorderLineShape(reg, t);
    var seg := Repeat(Horizontal, 3);
    assert seg == "---";
    assert BorderPieces(reg, t) == [seg + [Cross]];
    ConcatSingle(seg + [Cross]);
  }

  lemma EmptyColumnRow(reg: Style.Registry, t: Table)
    requires "" !in reg
    requires Valid(t) && |t.rows| == 1 && |t.rows[0]| == 1 && |t.rows[0][0].value| == 0 && Width(t.widths, 0) == 0
    ensures RowLine(reg, t, t.rows[0]) == "|  |"
  {
    SingleCellRow(reg, t, t.rows[0]);
    StoredCellShape(reg, t, 0, 0);
    var v := t.rows[0][0].value;
    assert Length(v) == 0 && v == "";
    assert Repeat(' ', 0) == "";
    assert [Vertical] + ([' '] + v + "" + [' ']) + [Vertical] == "|  |";
  }

  lemma EmptyColumnTable(key: string, value: string)
    requires |key| == 0 && |value| == 0
    ensures |SetRows(Empty, [Entries([Cell(key, value)])]).columns| == 1
    ensures |SetRows(Empty, [Entries([Cell(key, value)])]).rows| == 1
    ensures SetRows(Empty, [Entries([Cell(key, value)])]).rows[0] == [Cell(key, value)]
    ensures Width(SetRows(Empty, [Entries([Cell(key, value)])]).widths, 0) == 0
    ensures Valid(SetRows(Empty, [Entries([Cell(key, value)])]))
  {
    var rows := [Entries([Cell(key, value)])];
    SetRowsSpec(Empty, rows);
    assert rows[1..] == [];
    assert AllKeys(rows) == [key];
    assert AllCells(rows)[0] == [Cell(key, value)];
    assert Length(key) == 0 && Length(value) == 0;
    assert ColumnMax(rows, 0) == 0;
    EmptyValid();
    SetRowsValid(Empty, rows);
  }
}
