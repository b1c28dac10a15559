/** The rendering half of src/Widgets/Table.php: cell padding, the border,
    header and body lines, and the assembled table text. Styles come from
    an explicit registry (see module Style). */
module TableRender {
  import opened Text
  import opened Ansi
  import opened Table
  import Style
  import FS = FormatterStyle

  const Cross: char := '+'
  const Horizontal: char := '-'
  const Vertical: char := '|'

  /** The padding loop of `renderCell`: appends `filler` until the display
      length reaches `width`. Text already that wide is left alone. */
  function PadTo(v: string, filler: char, width: nat): (r: string)
    requires filler != 'm'
    ensures Length(r) == Max(Length(v), width)
    ensures r == v + Repeat(filler, Max(Length(v), width) - Length(v))
    decreases width - Length(v)
  {
    if Length(v) < width then
      LengthAppendChar(v, filler);
      var r := PadTo(v + [filler], filler, width);
      RepeatCons(filler, width - Length(v) - 1);
      assert v + [filler] + Repeat(filler, width - Length(v) - 1) == v + ([filler] + Repeat(filler, width - Length(v) - 1));
      r
    else
      assert v + Repeat(filler, 0) == v;
      v
  }

  /** `renderCell`: the padded value, styled, between two fillers. Without
      a style the cell is the value, then fillers up to the width of its
      position, framed by one filler on each side; its display length is
      two more than the larger of the value's display length and that width. */
  function RenderCell(reg: Style.Registry, widths: map<nat, nat>, column: nat, value: string, filler: char, style: string): (r: string)
    requires filler != 'm' && filler != ESC
    ensures style !in reg ==>
              r == [filler] + value + Repeat(filler, Max(Length(value), Width(widths, column)) - Length(value)) + [filler]
    ensures style !in reg ==> Length(r) == Max(Length(value), Width(widths, column)) + 2
  {
    var padded := PadTo(value, filler, Width(widths, column));
    FramedLength(padded, filler);
    [filler] + Style.ApplyStyle(reg, padded, style) + [filler]
  }

  /** Whatever the style, a cell with an escape-free value is two wider
      than the larger of the value and the width of its position: header
      cells line up with body cells. */
  lemma StyledCellLength(reg: Style.Registry, widths: map<nat, nat>, column: nat, value: string, filler: char, style: string)
    requires filler != 'm' && filler != ESC && ESC !in value
    ensures Length(RenderCell(reg, widths, column, value, filler, style)) == Max(|value|, Width(widths, column)) + 2
  {
    var padded := PadTo(value, filler, Width(widths, column));
    PaddedPlain(value, filler, Max(|value|, Width(widths, column)) - |value|);
    Style.ApplyStyleKeepsDisplayLength(reg, padded, style);
    FramedLength(Style.ApplyStyle(reg, padded, style), filler);
  }

  lemma PaddedPlain(v: string, filler: char, n: nat)
    requires filler != ESC && ESC !in v
    ensures ESC !in v + Repeat(filler, n) && |v + Repeat(filler, n)| == |v| + n
  {
  }

  /** Framing text with one plain character on each side adds two to its
      display length. */
  lemma FramedLength(v: string, filler: char)
    requires filler != 'm' && filler != ESC
    ensures Length([filler] + v + [filler]) == Length(v) + 2
  {
    StripAppendChar(v, filler);
    StripAfterPlain([filler], v + [filler]);
    assert [filler] + v + [filler] == [filler] + (v + [filler]);
  }

  // ---------------------------------------------------------------------
  // Lines

  /** One border segment per column, each followed by a cross. */
  function BorderPieces(reg: Style.Registry, t: Table): (ps: seq<string>)
    ensures |ps| == |t.columns|
  {
    seq(|t.columns|, i requires 0 <= i < |t.columns| => RenderCell(reg, t.widths, i, [Horizontal], Horizontal, "") + [Cross])
  }

  /** `renderLine`. */
  function BorderLine(reg: Style.Registry, t: Table): string
  {
    [Cross] + Concat(BorderPieces(reg, t))
  }

  /** One cell per entry of the row, by position, each followed by a bar. */
  function RowPieces(reg: Style.Registry, t: Table, cells: seq<Cell>): (ps: seq<string>)
    ensures |ps| == |cells|
  {
    seq(|cells|, i requires 0 <= i < |cells| => RenderCell(reg, t.widths, i, cells[i].value, ' ', "") + [Vertical])
  }

  /** `renderRow`. */
  function RowLine(reg: Style.Registry, t: Table, cells: seq<Cell>): string
  {
    [Vertical] + Concat(RowPieces(reg, t, cells))
  }

  /** The label of the column at position i: the header at the same
      position if there is one, else the column key. */
  function Title(t: Table, i: nat): (r: string)
    requires i < |t.columns|
    ensures i < |t.headers| ==> r == t.headers[i]
    ensures |t.headers| <= i ==> r == t.columns[i]
  {
    if i < |t.headers| then t.headers[i] else t.columns[i]
  }

  function HeaderPieces(reg: Style.Registry, t: Table): (ps: seq<string>)
    ensures |ps| == |t.columns|
  {
    seq(|t.columns|, i requires 0 <= i < |t.columns| => RenderCell(reg, t.widths, i, Title(t, i), ' ', "info") + [Vertical])
  }

  /** The header line of `render`: one "info"-styled title per column. */
  function HeaderLine(reg: Style.Registry, t: Table): string
  {
    [Vertical] + Concat(HeaderPieces(reg, t))
  }

  function RowLines(reg: Style.Registry, t: Table): (ls: seq<string>)
    ensures |ls| == |t.rows|
  {
    seq(|t.rows|, j requires 0 <= j < |t.rows| => RowLine(reg, t, t.rows[j]))
  }

  /** The lines `render` collects: a top border when there are headers and
      rows; the header line when there are headers and columns; then, when
      there are rows, a border, one line per row, and a closing border. */
  function Lines(reg: Style.Registry, t: Table): seq<string>
  {
    var border := BorderLine(reg, t);
    (if |t.headers| > 0 && |t.rows| > 0 then [border] else [])
    + (if |t.headers| > 0 && |t.columns| > 0 then [HeaderLine(reg, t)] else [])
    + (if |t.rows| > 0 then [border] + RowLines(reg, t) + [border] else [])
  }

  /** `render`: the lines joined with newlines. */
  function Render(reg: Style.Registry, t: Table): string
  {
    Join(Lines(reg, t), "\n")
  }

  // ---------------------------------------------------------------------
  // What the lines look like

  /** A border segment is a run of dashes two longer than its width, and
      at least three long: the dash it starts from counts as the value. */
  lemma BorderSegment(reg: Style.Registry, widths: map<nat, nat>, i: nat)
    requires "" !in reg
    ensures RenderCell(reg, widths, i, [Horizontal], Horizontal, "") == Repeat(Horizontal, Max(Width(widths, i), 1) + 2)
  {
    var n := Max(Width(widths, i), 1) - 1;
    assert Strip([Horizontal]) == [Horizontal];
    assert RenderCell(reg, widths, i, [Horizontal], Horizontal, "") == [Horizontal] + [Horizontal] + Repeat(Horizontal, n) + [Horizontal];
    RepeatCons(Horizontal, n);
    RepeatCons(Horizontal, n + 1);
    assert [Horizontal] + [Horizontal] + Repeat(Horizontal, n) == [Horizontal] + ([Horizontal] + Repeat(Horizontal, n));
  }

  /** `renderLine` on a table without styled borders: a cross, then for
      every column a dash run of its width plus two (at least three) and a
      cross. It holds no escape character. */
  lemma BorderLineShape(reg: Style.Registry, t: Table)
    requires "" !in reg
    ensures forall i :: 0 <= i < |t.columns| ==>
              BorderPieces(reg, t)[i] == Repeat(Horizontal, Max(Width(t.widths, i), 1) + 2) + [Cross]
    ensures BorderLine(reg, t)[0] == Cross
    ensures ESC !in BorderLine(reg, t)
  {
    var ps := BorderPieces(reg, t);
    forall i | 0 <= i < |t.columns|
      ensures ps[i] == Repeat(Horizontal, Max(Width(t.widths, i), 1) + 2) + [Cross]
      ensures ESC !in ps[i]
    {
      BorderSegment(reg, t.widths, i);
    }
    ConcatExcludes(ps, ESC);
  }

  /** A stored cell of a valid table, unstyled: a space, the value, spaces
      up to the width of its position, a space; its display length is that
      width plus two, whatever escapes the value holds. */
  lemma StoredCellShape(reg: Style.Registry, t: Table, j: nat, i: nat)
    requires Valid(t) && "" !in reg
    requires j < |t.rows| && i < |t.rows[j]|
    ensures RenderCell(reg, t.widths, i, t.rows[j][i].value, ' ', "")
         == [' '] + t.rows[j][i].value + Repeat(' ', Width(t.widths, i) - Length(t.rows[j][i].value)) + [' ']
    ensures Length(RenderCell(reg, t.widths, i, t.rows[j][i].value, ' ', "")) == Width(t.widths, i) + 2
  {
    assert Measure(t.rows[j][i]) <= Width(t.widths, i);
  }

  /** A row of one entry is that entry's cell between two bars. */
  lemma SingleCellRow(reg: Style.Registry, t: Table, cells: seq<Cell>)
    requires |cells| == 1
    ensures RowLine(reg, t, cells) == [Vertical] + RenderCell(reg, t.widths, 0, cells[0].value, ' ', "") + [Vertical]
  {
    var cell := RenderCell(reg, t.widths, 0, cells[0].value, ' ', "");
    var rp := RowPieces(reg, t, cells);
    assert rp[0] == cell + [Vertical];
    assert rp == [cell + [Vertical]];
    ConcatSingle(cell + [Vertical]);
  }

  /** Cell i of a stored row and border segment i have the same length and
      end in a bar and a cross respectively. */
  lemma RowPieceMatchesBorder(reg: Style.Registry, t: Table, j: nat, i: nat)
    requires Valid(t) && "" !in reg
    requires j < |t.rows| && i < |t.rows[j]| && i < |t.columns|
    requires Width(t.widths, i) >= 1
    requires ESC !in t.rows[j][i].value
    ensures |RowPieces(reg, t, t.rows[j])[i]| == |BorderPieces(reg, t)[i]|
    ensures ESC !in RowPieces(reg, t, t.rows[j])[i]
    ensures RowPieces(reg, t, t.rows[j])[i][|RowPieces(reg, t, t.rows[j])[i]| - 1] == Vertical
    ensures BorderPieces(reg, t)[i][|BorderPieces(reg, t)[i]| - 1] == Cross
  {
    StoredPiece(reg, t, j, i);
    BorderPiece(reg, t, i);
  }

  /** Cell i of a stored row with an escape-free value, with its bar. */
  lemma StoredPiece(reg: Style.Registry, t: Table, j: nat, i: nat)
    requires Valid(t) && "" !in reg
    requires j < |t.rows| && i < |t.rows[j]|
    requires ESC !in t.rows[j][i].value
    ensures |RowPieces(reg, t, t.rows[j])[i]| == Width(t.widths, i) + 3
    ensures ESC !in RowPieces(reg, t, t.rows[j])[i]
    ensures RowPieces(reg, t, t.rows[j])[i][Width(t.widths, i) + 2] == Vertical
  {
    var v := t.rows[j][i].value;
    StoredCellShape(reg, t, j, i);
    assert Length(v) == |v|;
    PlainPiece(v, Width(t.widths, i) - |v|);
  }

  /** An escape-free value padded with n spaces, framed, with its bar. */
  lemma PlainPiece(v: string, n: nat)
    requires ESC !in v
    ensures |[' '] + v + Repeat(' ', n) + [' '] + [Vertical]| == |v| + n + 3
    ensures ESC !in [' '] + v + Repeat(' ', n) + [' '] + [Vertical]
    ensures ([' '] + v + Repeat(' ', n) + [' '] + [Vertical])[|v| + n + 2] == Vertical
  {
    var piece := [' '] + v + Repeat(' ', n) + [' '] + [Vertical];
    assert forall k :: 0 <= k < |piece| ==> piece[k] != ESC;
  }

  /** Border segment i of a column at least one wide, with its cross. */
  lemma BorderPiece(reg: Style.Registry, t: Table, i: nat)
    requires "" !in reg && i < |t.columns|
    requires Width(t.widths, i) >= 1
    ensures |BorderPieces(reg, t)[i]| == Width(t.widths, i) + 3
    ensures BorderPieces(reg, t)[i][Width(t.widths, i) + 2] == Cross
  {
    BorderSegment(reg, t.widths, i);
  }

  /** Body rows line up with the borders: in a valid table whose column
      widths are all at least one, a stored row with one entry per column
      and escape-free values has exactly the border's length, and each of
      its bars sits at the position of a cross of the border. */
  lemma RowAlignsWithBorder(reg: Style.Registry, t: Table, j: nat)
    requires Valid(t) && "" !in reg
    requires j < |t.rows| && |t.rows[j]| == |t.columns|
    requires forall i :: 0 <= i < |t.columns| ==> Width(t.widths, i) >= 1
    requires forall i :: 0 <= i < |t.rows[j]| ==> ESC !in t.rows[j][i].value
    ensures ESC !in RowLine(reg, t, t.rows[j]) && ESC !in BorderLine(reg, t)
    ensures |RowLine(reg, t, t.rows[j])| == |BorderLine(reg, t)|
    ensures RowLine(reg, t, t.rows[j])[0] == Vertical && BorderLine(reg, t)[0] == Cross
    ensures forall k :: 0 < k <= |t.columns| ==>
              Boundary(RowPieces(reg, t, t.rows[j]), k) == Boundary(BorderPieces(reg, t), k) < |BorderLine(reg, t)|
    ensures forall k :: 0 < k <= |t.columns| ==>
              RowLine(reg, t, t.rows[j])[Boundary(RowPieces(reg, t, t.rows[j]), k)] == Vertical &&
              BorderLine(reg, t)[Boundary(BorderPieces(reg, t), k)] == Cross
  {
    var cells := t.rows[j];
    var rp := RowPieces(reg, t, cells);
    var bp := BorderPieces(reg, t);
    BorderLineShape(reg, t);
    forall i | 0 <= i < |cells|
      ensures |rp[i]| == |bp[i]| && |rp[i]| > 0 && ESC !in rp[i]
      ensures rp[i][|rp[i]| - 1] == Vertical && bp[i][|bp[i]| - 1] == Cross
    {
      RowPieceMatchesBorder(reg, t, j, i);
    }
    ConcatExcludes(rp, ESC);
    PiecesAlign(rp, bp, Vertical, Cross, Vertical, Cross);
  }

  // ---------------------------------------------------------------------
  // What render produces

  /** A valid table renders to nothing exactly when it has no rows: with
      headers but no rows not even the header line appears, since a table
      has columns only once it has rows. */
  lemma RenderEmptyIffNoRows(reg: Style.Registry, t: Table)
    requires Valid(t)
    ensures Render(reg, t) == "" <==> |t.rows| == 0
  {
    var ls := Lines(reg, t);
    if |t.rows| > 0 {
      var b := BorderLine(reg, t);
      assert ls[0] == b;
      JoinStartsWithFirst(ls, "\n");
    } else {
      assert ls == [];
    }
  }

  /** The layout of a table with rows and no headers: a border, the rows,
      a border. */
  lemma RenderLayoutPlain(reg: Style.Registry, t: Table)
    requires |t.rows| > 0 && |t.headers| == 0
    ensures Lines(reg, t) == [BorderLine(reg, t)] + RowLines(reg, t) + [BorderLine(reg, t)]
    ensures |Lines(reg, t)| == |t.rows| + 2
  {
    var b := BorderLine(reg, t);
    assert Lines(reg, t) == [] + [] + ([b] + RowLines(reg, t) + [b]);
  }

  /** The layout of a table with rows and headers: a border, the header
      line (when there is a column), a border, the rows, a border. */
  lemma RenderLayoutHeaded(reg: Style.Registry, t: Table)
    requires |t.rows| > 0 && |t.headers| > 0
    ensures |t.columns| > 0 ==>
              Lines(reg, t) == [BorderLine(reg, t), HeaderLine(reg, t), BorderLine(reg, t)] + RowLines(reg, t) + [BorderLine(reg, t)]
    ensures |t.columns| == 0 ==>
              Lines(reg, t) == [BorderLine(reg, t), BorderLine(reg, t)] + RowLines(reg, t) + [BorderLine(reg, t)]
  {
    if |t.columns| > 0 {
      LayoutWithHeaderLine(reg, t);
    } else {
      LayoutWithoutHeaderLine(reg, t);
    }
  }

  lemma LayoutWithHeaderLine(reg: Style.Registry, t: Table)
    requires |t.rows| > 0 && |t.headers| > 0 && |t.columns| > 0
    ensures Lines(reg, t) == [BorderLine(reg, t), HeaderLine(reg, t), BorderLine(reg, t)] + RowLines(reg, t) + [BorderLine(reg, t)]
  {
    var b, h, rs := BorderLine(reg, t), HeaderLine(reg, t), RowLines(reg, t);
    assert Lines(reg, t) == [b] + [h] + ([b] + rs + [b]);
    assert [b] + [h] + ([b] + rs + [b]) == [b, h, b] + rs + [b];
  }

  lemma LayoutWithoutHeaderLine(reg: Style.Registry, t: Table)
    requires |t.rows| > 0 && |t.headers| > 0 && |t.columns| == 0
    ensures Lines(reg, t) == [BorderLine(reg, t), BorderLine(reg, t)] + RowLines(reg, t) + [BorderLine(reg, t)]
  {
    var b, rs := BorderLine(reg, t), RowLines(reg, t);
    assert Lines(reg, t) == [b] + [] + ([b] + rs + [b]);
    assert [b] + [] + ([b] + rs + [b]) == [b, b] + rs + [b];
  }

  /** Splitting the rendered text at newlines gives back its lines, as
      long as no line holds a newline of its own. */
  lemma RenderSplitsIntoLines(reg: Style.Registry, t: Table)
    requires |t.rows| > 0
    requires forall l :: l in Lines(reg, t) ==> '\n' !in l
    ensures Split(Render(reg, t), '\n') == Lines(reg, t)
  {
    var ls := Lines(reg, t);
    assert forall i :: 0 <= i < |ls| ==> '\n' !in ls[i];
    RenderSplits(reg, t, ls);
  }

  /** `RenderSplitsIntoLines` for lines already known. */
  lemma RenderSplits(reg: Style.Registry, t: Table, ls: seq<string>)
    requires Lines(reg, t) == ls && |ls| > 0
    requires forall i :: 0 <= i < |ls| ==> '\n' !in ls[i]
    ensures Split(Render(reg, t), '\n') == ls
  {
    SplitJoin(ls, '\n');
  }

  /** A character that cannot occur in an SGR sequence, and is neither
      filler nor frame, appears in no rendered line unless some header,
      column key or stored value holds it. In particular a table whose
      texts hold no newline renders one line per entry of `Lines`. */
  lemma LinesExclude(reg: Style.Registry, t: Table, x: char)
    requires !IsDigit(x) && x != ';' && x != ESC && x != '[' && x != 'm'
    requires x != ' ' && x != Horizontal && x != Cross && x != Vertical
    requires forall i :: 0 <= i < |t.headers| ==> x !in t.headers[i]
    requires forall i :: 0 <= i < |t.columns| ==> x !in t.columns[i]
    requires forall j, i :: 0 <= j < |t.rows| && 0 <= i < |t.rows[j]| ==> x !in t.rows[j][i].value
    ensures forall l :: l in Lines(reg, t) ==> x !in l
  {
    BorderLineExcludes(reg, t, x);
    HeaderLineExcludes(reg, t, x);
    RowLinesExclude(reg, t, x);
    LinesMembers(reg, t);
  }

  /** Every line of `render` is the border, the header line or a row line. */
  lemma LinesMembers(reg: Style.Registry, t: Table)
    ensures forall l :: l in Lines(reg, t) ==> l == BorderLine(reg, t) || l == HeaderLine(reg, t) || l in RowLines(reg, t)
  {
    var b, h, rs := BorderLine(reg, t), HeaderLine(reg, t), RowLines(reg, t);
    var top: seq<string> := if |t.headers| > 0 && |t.rows| > 0 then [b] else [];
    var head: seq<string> := if |t.headers| > 0 && |t.columns| > 0 then [h] else [];
    var body: seq<string> := if |t.rows| > 0 then [b] + rs + [b] else [];
    assert Lines(reg, t) == top + head + body;
  }

  lemma RowLinesExclude(reg: Style.Registry, t: Table, x: char)
    requires !IsDigit(x) && x != ';' && x != ESC && x != '[' && x != 'm'
    requires x != ' ' && x != Vertical
    requires forall j, i :: 0 <= j < |t.rows| && 0 <= i < |t.rows[j]| ==> x !in t.rows[j][i].value
    ensures forall l :: l in RowLines(reg, t) ==> x !in l
  {
    var rs := RowLines(reg, t);
    forall j | 0 <= j < |rs|
      ensures x !in rs[j]
    {
      RowLineExcludes(reg, t, t.rows[j], x);
    }
  }

  lemma BorderLineExcludes(reg: Style.Registry, t: Table, x: char)
    requires !IsDigit(x) && x != ';' && x != ESC && x != '[' && x != 'm'
    requires x != Horizontal && x != Cross
    ensures x !in BorderLine(reg, t)
  {
    var bp := BorderPieces(reg, t);
    forall i | 0 <= i < |bp|
      ensures x !in bp[i]
    {
      CellExcludes(reg, t.widths, i, [Horizontal], Horizontal, "", x);
    }
    ConcatExcludes(bp, x);
  }

  lemma HeaderLineExcludes(reg: Style.Registry, t: Table, x: char)
    requires !IsDigit(x) && x != ';' && x != ESC && x != '[' && x != 'm'
    requires x != ' ' && x != Vertical
    requires forall i :: 0 <= i < |t.headers| ==> x !in t.headers[i]
    requires forall i :: 0 <= i < |t.columns| ==> x !in t.columns[i]
    ensures x !in HeaderLine(reg, t)
  {
    var hp := HeaderPieces(reg, t);
    forall i | 0 <= i < |hp|
      ensures x !in hp[i]
    {
      CellExcludes(reg, t.widths, i, Title(t, i), ' ', "info", x);
    }
    ConcatExcludes(hp, x);
  }

  lemma RowLineExcludes(reg: Style.Registry, t: Table, cells: seq<Cell>, x: char)
    requires !IsDigit(x) && x != ';' && x != ESC && x != '[' && x != 'm'
    requires x != ' ' && x != Vertical
    requires forall i :: 0 <= i < |cells| ==> x !in cells[i].value
    ensures x !in RowLine(reg, t, cells)
  {
    var rp := RowPieces(reg, t, cells);
    forall i | 0 <= i < |rp|
      ensures x !in rp[i]
    {
      CellExcludes(reg, t.widths, i, cells[i].value, ' ', "", x);
    }
    ConcatExcludes(rp, x);
  }

  lemma CellExcludes(reg: Style.Registry, widths: map<nat, nat>, column: nat, value: string, filler: char, style: string, x: char)
    requires filler != 'm' && filler != ESC && filler != x
    requires !IsDigit(x) && x != ';' && x != ESC && x != '[' && x != 'm'
    requires x !in value
    ensures x !in RenderCell(reg, widths, column, value, filler, style)
  {
    var padded := PadTo(value, filler, Width(widths, column));
    assert x !in padded;
    var fg, bg := Style.GetForeground(reg, style), Style.GetBackground(reg, style);
    if Style.Acceptable(fg) && Style.Acceptable(bg) {
      FS.ApplyExcludes(Style.ColorsComposer(fg, bg), padded, x);
    }
  }

  /** Splitting the rendered text of a table with rows whose texts hold no
      newline gives back exactly its lines. */
  lemma RenderLinesRoundTrip(reg: Style.Registry, t: Table)
    requires |t.rows| > 0
    requires forall i :: 0 <= i < |t.headers| ==> '\n' !in t.headers[i]
    requires forall i :: 0 <= i < |t.columns| ==> '\n' !in t.columns[i]
    requires forall j, i :: 0 <= j < |t.rows| && 0 <= i < |t.rows[j]| ==> '\n' !in t.rows[j][i].value
    ensures Split(Render(reg, t), '\n') == Lines(reg, t)
  {
    LinesExclude(reg, t, '\n');
    RenderSplitsIntoLines(reg, t);
  }
}
