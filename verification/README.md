# Terminal styling and table rendering, modelled in Dafny

This project models the text-styling and table-rendering engine of the
corex console library:

- the ANSI style composer `OutputFormatterStyle` (colour and option code
  tables, the validating setters, and `apply`, which wraps text in SGR
  sequences, the Select Graphic Rendition control function of section
  8.3.117 of ECMA-48);
- the named style registry `Style` (six built-in styles, insert, lookup,
  delete, field accessors and the forgiving `apply`/`applyStyle`); the
  source keeps it in a process-wide static array, the model passes it as an
  explicit `map` value;
- the table widget `Table` (headers, distinct column keys, rows,
  per-position maximum display widths, and `render`, which lays out a
  `+---+` / `| x |` grid joined by newlines);
- the `length` helper the table measures with, which deletes every
  `ESC [ ... m` sequence (the control-sequence syntax of section 5.4 of
  ECMA-48) and counts what remains.

Modules:

| module | file | contents |
|---|---|---|
| `Wrappers` | wrappers.dfy | `Option` and `Result`; exceptions become `Err` values |
| `Text` | text.dfy | repeat, join/split, decimal numerals, first-occurrence deduplication |
| `Ansi` | ansi.dfy | SGR sequences, the stripping scan, display length |
| `FormatterStyle` | formatter_style.dfy | the composer: code tables, setters, `apply` and its inverse |
| `Style` | style.dfy | the registry and the forgiving `apply`/`applyStyle` |
| `Table` | table.dfy | table state, `setHeaders`, `setRows`, widths, the state invariant |
| `TableRender` | table_render.dfy | `renderCell`, `renderLine`, `renderRow`, `render` |
| `TableExamples` | table_examples.dfy | the two `Console::table` scenarios of the test suite, and two layout quirks |

Every operation is a pure function. The setters return a `Result` instead
of throwing. `render` takes the registry and the table and returns the text.
The composer's `apply` has an independent inverse, `Unwrap`, which parses
the SGR sequences back into codes. Table widths have a closed form,
`ColumnMax`/`HeaderMeasure`, and the incremental updates are proved equal
to it. `render`'s output has `Split` as its inverse, and the layout lemmas
state which lines it holds.

## Model

| member | source | states |
|---|---|---|
| FormatterStyle.ColorCodes | src/Helpers/OutputFormatterStyle.php:17-40 | both colour tables hold exactly the eight colours and `default`; colour k of the palette sets 30+k (foreground) or 40+k (background), `default` sets 39 or 49, and the unset code is always 39 or 49 |
| FormatterStyle.SetForeground | src/Helpers/OutputFormatterStyle.php:87-103 | null clears the foreground; a known name sets code 30+offset with unset 39; any other name fails with that name and no new state |
| FormatterStyle.SetBackground | src/Helpers/OutputFormatterStyle.php:111-127 | the same for the background, with codes 40+offset and unset 49 |
| FormatterStyle.SetOption | src/Helpers/OutputFormatterStyle.php:135-148 | fails exactly for unknown names; appends the option's code only if it is absent; colours are untouched; the list stays duplicate-free |
| FormatterStyle.UnsetOption | src/Helpers/OutputFormatterStyle.php:156-170 | fails exactly for unknown names; a no-op when the code is absent; otherwise the first occurrence of the code is removed and the other codes keep their order; for a duplicate-free list the code no longer occurs |
| FormatterStyle.SetOptionIdempotent | src/Helpers/OutputFormatterStyle.php:135-148 | setting the same option twice equals setting it once |
| FormatterStyle.UnsetUndoesSet | src/Helpers/OutputFormatterStyle.php:135-170 | unsetting a freshly set option restores the composer |
| FormatterStyle.AddOptionsSpec | src/Helpers/OutputFormatterStyle.php:180-183 | the loop of `setOptions` succeeds iff every name is known; it then appends the new codes deduplicated; otherwise it fails on the first unknown name |
| FormatterStyle.SetOptions | src/Helpers/OutputFormatterStyle.php:178-184 | no contract of its own; its behaviour is stated by SetOptionsReplaces and AddOptionsSpec |
| FormatterStyle.SetOptionsReplaces | src/Helpers/OutputFormatterStyle.php:178-184 | `setOptions` replaces the list: on success it is the given options' codes in first-occurrence order, whatever was there before |
| FormatterStyle.WithColors | src/Helpers/OutputFormatterStyle.php:70-75 | the constructor's colour step: succeeds iff each given name is a colour, checks the foreground first, and stores the matching codes with no options |
| FormatterStyle.NewComposer | src/Helpers/OutputFormatterStyle.php:68-79 | no contract of its own; its behaviour is stated by NewComposerSpec and WithColors |
| FormatterStyle.NewComposerSpec | src/Helpers/OutputFormatterStyle.php:68-79 | the constructor succeeds iff the colours and options are all known; on success it holds the colours' codes and the options deduplicated in order |
| FormatterStyle.Apply | src/Helpers/OutputFormatterStyle.php:213-215 | the text comes back unchanged exactly when no code is set |
| FormatterStyle.ApplyUnwraps | src/Helpers/OutputFormatterStyle.php:195-217 | with at least one code set, parsing the output recovers the set codes (foreground, background, options in order), the text, and the matching unset codes |
| FormatterStyle.ParamsRoundTrip | src/Helpers/OutputFormatterStyle.php:217 | the `;`-joined decimal parameter string parses back to the codes |
| FormatterStyle.ApplyKeepsDisplayLength | src/Helpers/OutputFormatterStyle.php:193-218 | styling escape-free text does not change its display length |
| FormatterStyle.ApplyExcludes | src/Helpers/OutputFormatterStyle.php:217 | styling adds only ESC, `[`, digits, `;` and `m`; no other character appears that was not in the text |
| Style.DefaultStyles | src/Style.php:13-20 | the initial registry holds exactly normal, error, warning, info, comment and title; error is white on red; every built-in colour is valid |
| Style.SetStyle | src/Style.php:39-45 | inserts or overwrites one entry, keeps every other entry, adds no other key |
| Style.GetStyle | src/Style.php:53-59 | returns the entry exactly when the name is present |
| Style.ForgetStyle | src/Style.php:66-71 | removes only that name; all other entries are unchanged |
| Style.GetForeground | src/Style.php:79-82 | the stored foreground name, or `""` for an absent style |
| Style.GetBackground | src/Style.php:90-93 | the stored background name, or `""` for an absent style |
| Style.Get | src/Style.php:141-150 | returns the requested field, or `""` for an absent style |
| Style.SetThenGet | src/Style.php:39-59 | after storing a style, reading it gives back the stored names, colours or not |
| Style.ForgetThenGet | src/Style.php:53-71 | after forgetting, the style reads as absent and its fields as `""`; forgetting an absent name changes nothing |
| Style.ForgetUndoesSet | src/Style.php:39-71 | forgetting a newly added style restores the registry |
| Style.ComposeForeground | src/Style.php:106-109 | the first step of `apply`: an empty name leaves the foreground unset; otherwise it succeeds iff the name is a colour |
| Style.Compose | src/Style.php:106-112 | the composer `apply` builds: it succeeds iff each name is empty or a colour, holds the matching codes, and reports the foreground error first |
| Style.Apply | src/Style.php:103-117 | with an unknown colour name the text is returned unchanged, even if the other name is valid; otherwise it is the composer's `apply` with those colours; `apply(text, "", "")` is the text |
| Style.ApplyStyle | src/Style.php:126-131 | `apply` with the stored colours; an unknown style name gives the text unchanged |
| Style.ApplyStyleUnknown | src/Style.php:126-131 | `applyStyle` through an absent name is the identity |
| Style.ApplyStyleKeepsDisplayLength | src/Style.php:103-131 | whatever the style, the display length of escape-free text is unchanged |
| Style.ApplyMatchesComposer | tests/StyleTest.php:70-77 | `apply("test", "white", "red")` equals the composer with white and red set |
| Style.ApplyStyleError | tests/StyleTest.php:95-102 | `applyStyle("test", "error")` equals `apply("test", "white", "red")` |
| Style.ApplyMagentaOnBlack | src/Style.php:103-117 | `apply("hi", "magenta", "black")` is `ESC[35;40m` + `hi` + `ESC[39;49m` |
| Ansi.Length | src/Widgets/Table.php:230-234 | the display length never exceeds the character count and equals it for escape-free text; StripFlatten and LengthIgnoresSgr state how SGR sequences are skipped |
| Ansi.Strip | src/Widgets/Table.php:232 | stripping never lengthens text and leaves escape-free text unchanged |
| Ansi.LengthIgnoresSgr | src/Widgets/Table.php:230-234 | inserting an SGR sequence whose parameters hold no `m` after an escape-free prefix does not change the display length |
| Ansi.StripFlatten | src/Widgets/Table.php:230-234 | for any mixture of visible characters and SGR sequences, stripping leaves exactly the visible characters, and the display length is their number |
| Ansi.LengthAppendChar | src/Widgets/Table.php:189-191 | appending a character other than `m` adds exactly one to the display length |
| Table.Width | src/Widgets/Table.php:203-209 | no contract of its own: the stored width of a position, 0 when none; UpdateWidth states how it changes |
| Table.UpdateWidth | src/Widgets/Table.php:217-222 | the width at that position becomes the larger of the old width and the new one; every other width is unchanged |
| Table.AddHeaders | src/Widgets/Table.php:51-58 | adds the labels not yet present, in order, and charges each label's display length to its original position |
| Table.AddCells | src/Widgets/Table.php:73-80 | adds the row's new keys to the columns in order, and charges each cell's key and value lengths to its position |
| Table.SetHeaders | src/Widgets/Table.php:49-59 | leaves columns and rows unchanged and never lowers a width; the full closed form is SetHeadersSpec |
| Table.SetHeadersSpec | src/Widgets/Table.php:49-59 | headers become the first occurrences of old plus new labels; width i becomes the larger of its old value and header i's length; rows and columns are unchanged |
| Table.SetRows | src/Widgets/Table.php:66-83 | leaves the headers unchanged and appends one stored row per given row; the full closed form is SetRowsSpec |
| Table.SetRowsSpec | src/Widgets/Table.php:66-83 | rows are appended normalised, with a scalar becoming a one-cell row keyed "0"; columns become the first occurrences of old plus new keys; width i becomes the larger of its old value and the largest key or value at position i |
| Table.WidthsNeverDecrease | src/Widgets/Table.php:217-222 | no width ever decreases, under `setHeaders` or `setRows` |
| Table.ConsoleTableWidths | src/Console.php:222-229 | for `Console::table`, width i is the largest display length among header i and every row's key and value at i, or 0; either call order gives the same widths |
| Table.SetHeadersValid | src/Widgets/Table.php:49-59 | `setHeaders` keeps the table invariant: duplicate-free headers and columns, stored keys are columns, stored cells fit their widths |
| Table.AddRowValid | src/Widgets/Table.php:73-80 | adding one row keeps the table invariant |
| Table.SetRowsValid | src/Widgets/Table.php:66-83 | `setRows` keeps the table invariant |
| TableRender.PadTo | src/Widgets/Table.php:189-191 | the padded text has display length equal to the larger of its own and the width, and is the text followed only by fillers |
| TableRender.RenderCell | src/Widgets/Table.php:184-195 | an unstyled cell is a filler, the value, fillers up to the column width, and a filler; its display length is the larger of the value's and the width, plus two |
| TableRender.StyledCellLength | src/Widgets/Table.php:184-195 | with any style, a cell with an escape-free value has the same display length as the unstyled one |
| TableRender.Title | src/Widgets/Table.php:107-111 | a column's label is the header at that position, or else the column key |
| TableRender.BorderSegment | src/Widgets/Table.php:143-154 | a border segment is `max(width, 1) + 2` dashes, never fewer than three |
| TableRender.BorderLine | src/Widgets/Table.php:143-154 | no contract of its own; its shape is stated by BorderLineShape and BorderSegment |
| TableRender.RowLine | src/Widgets/Table.php:162-173 | no contract of its own; its shape is stated by StoredCellShape and RowAlignsWithBorder |
| TableRender.HeaderLine | src/Widgets/Table.php:103-117 | no contract of its own; its cells are stated by Title and StyledCellLength |
| TableRender.Lines | src/Widgets/Table.php:90-133 | no contract of its own; the layout is stated by RenderLayoutPlain and RenderLayoutHeaded |
| TableRender.Render | src/Widgets/Table.php:90-136 | no contract of its own; stated by RenderEmptyIffNoRows, RenderLinesRoundTrip and LinesExclude |
| TableRender.BorderLineShape | src/Widgets/Table.php:143-154 | the border line starts with `+`, has one dash segment and one `+` per column, and holds no escape |
| TableRender.StoredCellShape | src/Widgets/Table.php:162-173 | a stored body cell is a space, the value, padding spaces and a space, exactly two wider than its column |
| TableRender.RowAlignsWithBorder | src/Widgets/Table.php:143-173 | for a complete row of escape-free values in columns at least one wide, the row line has the border's length, and every `|` sits under a `+` |
| TableRender.RenderEmptyIffNoRows | src/Widgets/Table.php:90-136 | `render` returns `""` exactly when there are no rows, headers or not |
| TableRender.RenderLayoutPlain | src/Widgets/Table.php:121-135 | with rows and no headers the lines are a border, one line per row with no separator, and a border |
| TableRender.RenderLayoutHeaded | src/Widgets/Table.php:95-133 | with headers and rows the lines are a border, the header line (only when there are columns), a border, the rows, and a border |
| TableRender.RenderLinesRoundTrip | src/Widgets/Table.php:135 | when no cell contains a newline, splitting the output at newlines gives back exactly the lines |
| TableRender.LinesExclude | src/Widgets/Table.php:90-136 | a character outside the grid alphabet and the SGR alphabet appears in the output only if some header, key or value contains it |
| TableExamples.ConsoleTable | src/Console.php:222-229 | no contract of its own: rows first, then headers when any; its widths are stated by Table.ConsoleTableWidths |
| TableExamples.ScalarsTable | src/Widgets/Table.php:66-83 | two scalar items become one column keyed "0", as wide as the items, holding both |
| TableExamples.ConsoleTableNoHeaders | tests/ConsoleTest.php:258-268 | `table(['test1', 'test2'])` prints the border `+-------+`, then `test1` and `test2` each framed by a bar and a space on both sides, then the border again |
| TableExamples.ConsoleTableWithHeaders | tests/ConsoleTest.php:273-285 | `table(['test1', 'test2'], ['Test'])` prints a border, the "info"-styled padded header, a border, the two items, and a border |
| TableExamples.RepeatedHeaderShifts | src/Widgets/Table.php:51-58 | for headers `[x, x, y]` the list is `[x, y]`, but `y`'s width is charged to position 2 while `y` is shown at position 1 |
| TableExamples.EmptyColumnMisaligns | src/Widgets/Table.php:143-173 | a column with an empty key and value has width 0: its border segment is three dashes but its cell is two spaces |
| Text.SplitJoin | src/Widgets/Table.php:135 | splitting a newline-join of newline-free lines gives back the lines |
| Text.JoinSplit | src/Widgets/Table.php:135 | joining the pieces of a split gives back the string |
| Text.DecimalRoundTrip | src/Helpers/OutputFormatterStyle.php:217 | the decimal numeral of a code reads back as that code |
| Text.AppendNewIsFirstOccurrences | src/Widgets/Table.php:54-56 | the skip-if-present loop that builds headers and columns computes the first occurrences of everything seen |

## Left out

- src/Console.php apart from `table`: it passes straight through to the
  CLImate library (writing, colours, prompts, terminal size). `table` itself
  is modelled as `TableExamples.ConsoleTable`, without the final write.
- src/Writers/SymfonyWriter.php and the test buffers: output objects only.
- Output and I/O in general: `render` returns the text and nothing writes it.
- Display length counts code points. `CoRex\Helpers\Str::length` is not part
  of this model, and the model does not reproduce its multibyte rules.
- The PCRE replace in `length` is modelled as a left-to-right scan deleting
  each match of `ESC '[' [^m]* 'm'`.
- Keys and cell values are strings, compared strictly. PHP's loose `in_array`
  comparison between integer and string keys is left out. So are
  non-string cells, which make `renderCell` fail its `string` type
  declaration. A scalar row's integer key 0 is the string "0".
- Table.AddHeaders, Table.SetHeadersSpec: header labels are deduplicated
  with strict string equality. The source's loose `in_array` at
  src/Widgets/Table.php:54 also treats numeric strings with equal values as
  equal. So `setHeaders(["1", "01"])` keeps only "1" in the source and both
  labels in the model.
- Exception messages: errors carry the offending name, not the message text.
- FormatterStyle.SetOptionsReplaces: on failure the source leaves the list
  holding the options added before the bad name. The model returns only the
  error, so that partial state is not modelled.
- `getStyles` (src/Style.php:27-30) returns the registry unchanged; in the
  model that is the `Registry` value itself. Its only caller, the
  `climate()` style merge, is in Console.php and is left out.
- TableRender.PadTo: requires a filler other than `m`. An `m` appended
  after a pending `ESC [` closes an SGR sequence and lowers the display
  length, so the termination measure `width - Length(v)` does not decrease
  on that step. The source loop still ends, because this happens at most
  once. Every caller in the source passes a space or a dash, so the
  requirement excludes no call the source makes.
- TableRender.RenderCell: requires a filler other than `m`, as PadTo does.
  It also requires a filler other than ESC, so that the leading filler
  cannot form an escape sequence together with the value. Its closed form
  is stated for an unregistered style. StyledCellLength covers the styled
  case by display length only.
- TableRender.BorderSegment, TableRender.BorderLineShape,
  TableRender.StoredCellShape, TableRender.RowAlignsWithBorder: each
  assumes no style is registered under the empty name. Border and body
  cells are styled with that name, and the built-in registry has no such
  entry.
- `render` leaving the table unchanged, and repeated calls agreeing: true by
  construction, because `Render` is a pure function of its arguments.
