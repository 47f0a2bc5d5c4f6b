# mobzquery query pipeline — a Dafny model

mobzquery is a command-line tool. It runs one parameterised SQL query against an OleDb
(Jet/ACE), SQLite or MySQL data source, or against a raw OleDb connection string. It then writes
the result in one of four forms: `info` (a table of the result's columns), `table` (a console
table), `csv`, or `scalar` (one value). This project models the deterministic part of
`QueryDataSource` in `Program.cs`:

- the connection-type switch (`--type` and `source` become a connection string, or the run fails);
- the parameter binder (the positional parameters become `("1", p1)`, `("2", p2)`, …);
- the dispatch on the command, with its early errors and the value `QueryDataSource` returns;
- the info, table and csv renderers; table and csv each fill a reused per-row `values` array;
- the per-value CSV cell switch, including `--escape`.

The query result is an input, `Data.QueryResult`. It is a well-formed `ResultSet`: column `i`
has index `i`, and every row has one value per column. A value is `Null`, `Date`, `Text` or
`Other`. `Other` carries the string that the object's `ToString()` gives.

Everything the program leaves to libraries is a field of `Query.Host`:

- the provider constructors, which may refuse a connection string with a message;
- opening the connection;
- the engine running the query;
- the current culture's `DateTime.ToString()`;
- the Spectre.Console markup parser, which may refuse a markup text with a message.

Console writes are modelled as a sequence of `Query.Output` values: markup lines, the error
markup, plain `Console.WriteLine` lines, and tables given as the markup text of each cell.
Spectre.Console's `Markup.Escape` is modelled with its real behaviour: it doubles `[` and then
`]`. `Markup.Unescape` gives the text such markup shows. Column type names in `info`, and a
`scalar` value that is not a string, reach the markup parser unescaped: the interpolated writers
escape only string arguments. The parser's verdict on such text is `Host.markupError`.

Modules (one file each): `Wrappers`, `TextUtil` (decimal numbers, ordinal one-character
`Replace`, `Join`/`Split`), `Markup`, `Data`, `Connections`, `Parameters`, `Csv`, `Tables`,
`Query`.

The model follows the code in these points, which a reader might expect to be otherwise:

- The program has no JSON output.
- With zero rows, `scalar`, `table` and `csv` write no data and succeed; only the verbose
  `Query returned 0 rows` line appears. No header is written, and there is no shape error, because the zero-row branch comes first.
- A CSV null is `<NULL`, without the closing `>`.
- The unknown-command message is `Unknow opration: '<command>`, with no closing quote.
- The raw-string hint says "OleDd".

## Model

| member | source | states |
|---|---|---|
| Connections.CreateConnection | Program.cs:118-126 | jet, ace and sqlite wrap the source in their provider strings; mysql and no type pass it through; the source can be read back out of every built string; any other type fails with `Unknown type '<type>'`; a known type succeeds exactly when its provider accepts the built string, and a typed refusal fails with the provider's own message |
| Connections.TryCreateOleDbConnection | Program.cs:88-100 | a raw source becomes an OleDb connection unchanged, or fails with the library's message after the "Provider=" remediation hint |
| Parameters.BindParameters | Program.cs:137 | no list gives no parameters; otherwise one pair per parameter, same length and order, values unchanged |
| Parameters.BoundNamesReadBack | Program.cs:137 | the i-th (0-based) bound name is all digits and reads back as i+1 |
| Parameters.PlaceholderReceivesParameter | Program.cs:137 | the name `k` (placeholder `@k`) finds exactly the k-th parameter, and no name outside 1..n finds any |
| TextUtil.ReadNatToString | Program.cs:137 | the decimal form of a number (`ToString()`) reads back as that number, so distinct positions get distinct names |
| Markup.UnescapeEscape | Program.cs:153 | `Markup.Escape` loses nothing: the escaped text shows exactly the original text |
| Markup.EscapedStartsNoTag | Program.cs:187 | escaped text never opens a style tag at its start |
| Csv.DateRoundTrip | Program.cs:210 | a date becomes 19 characters `yyyy-MM-dd HH:mm:ss` with its separators in place, and all six fields read back unchanged (zero-padded) |
| Csv.CsvCellMeaning | Program.cs:207-217 | null gives exactly `<NULL`; a date gives the 19-character format; text without --escape gives `"` + text + `"`; with --escape, the quoted inside unescapes to the text, has no CR or LF and has as many `"` as the text; any other value gives its own string unquoted |
| Csv.EscapedTextCell | Program.cs:211-214 | with --escape, the surrounding quotes pass through untouched and the inside is escaped character by character |
| Csv.UnescapeEscape | Program.cs:212-214 | backslashes are doubled before CR and LF are replaced, so the escaping can be undone exactly |
| Csv.EscapedHasNoLineBreak | Program.cs:213-214 | escaped text contains no raw CR or LF |
| Csv.EscapeKeepsQuotes | Program.cs:211-215 | escaping keeps the number of double quotes, so none is doubled |
| Csv.EscapePassesQuote | Program.cs:211-215 | a double quote anywhere in the text comes out of escaping as one plain `"`, neither doubled nor escaped, with the text on each side escaped on its own |
| Csv.EscapeLeavesPlainText | Program.cs:211-215 | text without a backslash, CR or LF is left exactly as it is, so with --escape its cell is that text in quotes, inner quotes included |
| Csv.CsvLines | Program.cs:201-219 | one header line of quoted column names joined by `,`, then one line per row in row order, each the row's cells in column order joined by `,` |
| Csv.RenderCsv | Program.cs:201-220 | the header plus the loops over rows and columns with the reused `values` array produce exactly those lines |
| Csv.EscapedLinesHaveNoLineBreak | Program.cs:201-219 | with --escape, if no column name and no other value holds a line break, every row is written as exactly one physical line |
| Csv.RowLineSplits | Program.cs:219 | a row line whose cells hold no comma splits back into exactly its cells, one per column |
| Tables.CellMarkupMeaning | Program.cs:187 | a table cell is the red `<NULL>` marker exactly when the value is null; otherwise it shows the value's own string |
| Tables.RenderInfo | Program.cs:148-155 | the loop over the columns builds the Index/Name/Type table, one row per column, or fails with the parser's message for the first type name it refuses |
| Tables.InfoListsEveryColumn | Program.cs:150-154 | every column is listed once, in order, with its index (all digits, reading back as the position), its name (escaped, shown unchanged) and its type name |
| Tables.RenderTable | Program.cs:179-190 | the header plus the loops over rows and columns with the reused `values` array produce the data table |
| Tables.DataTableShape | Program.cs:181-189 | the header shows the column names; there is one row per result row and one cell per column; a cell is the null marker exactly for null, and otherwise shows the value's string |
| Query.QueryDataSource | Program.cs:102-236 | the step-by-step run, with its early throws, writes exactly what `Run` describes and returns the value `Run` gives |
| Query.ReturnReportsFailure | Program.cs:227-235 | the return value is 0 or 1; it is 1 exactly when the last write is the red `Error executing 'query': ` message, and that is the only write without a line break |
| Query.FailedShowsMessage | Program.cs:231-235 | a failure keeps every earlier write, returns 1, and adds one red `Error executing 'query': ` write whose text shows the exception's message exactly |
| Query.UsingShowsConnectionString | Program.cs:128-129 | the verbose line shows the connection string exactly as it is, between the quotes of `Using connection string '…'` |
| Query.UnknownTypeFails | Program.cs:125 | an unknown --type fails with `Unknown type '<type>'` before anything is written |
| Query.EscapeOnlyAffectsCsv | Program.cs:115 | the escape flag changes nothing for any command other than csv |
| Query.QueryRunsWithBoundParameters | Program.cs:128-140 | the engine gets the query and the bound parameters; in verbose mode the connection string and "Connection opened" come first; the dispatch then decides the rest |
| Query.InfoIgnoresRows | Program.cs:145-156 | info lists every column, whatever the row count, including zero, each with its digit index, name and type name; it fails exactly when the parser refuses a type name, with the message for the first such column |
| Query.ZeroRowsWriteNoData | Program.cs:157-162 | with zero rows, every command but info (scalar included) succeeds and writes exactly one "0 rows" line when verbose and nothing otherwise |
| Query.ScalarShape | Program.cs:163-175 | with at least one row, a row count other than 1 fails with `Query returned N rows, expected 1`; otherwise a column count other than 1 fails with `... columns, expected 1`; otherwise null gives the red `<NULL>` marker, a string is escaped and shows unchanged, and any other value's string is written unescaped, or fails with the parser's message when the parser refuses it |
| Query.TableCountsRows | Program.cs:176-196 | table writes one table row per result row; the verbose count is all digits and reads back as the number of rows |
| Query.CsvWritesHeaderAndRows | Program.cs:198-221 | csv writes the header line, then exactly one line per row, each with the row's cells in column order |
| Query.UnknownCommandFails | Program.cs:222-225 | any other command fails with `Unknow opration: '<command>`, but only when the query returned rows |

## Left out

- Command-line parsing with System.CommandLine, and the top-level parse and invoke (Program.cs:15-76). The parsed arguments are the input `Query.Invocation`. The value check `AcceptOnlyFromAmong` is not modelled, so the switch's unknown-type case is reachable in the model.
- `ShowHelp` (Program.cs:78-86). It uses reflection, the assembly version and console output.
- Opening real connections and running the query: `OleDbConnection`, `SqliteConnection`, `MySqlConnection` and `MOBZystems.Data.DataConnection.SelectAsync`. These are foreign libraries, I/O and async. They are the fields of `Query.Host`. Whether a provider accepts a string is an input, and so is the engine's message on failure.
- The connection string shown in verbose mode is the one the program built. A provider's `ConnectionString` getter may normalise it (MySQL can drop the password); that library behaviour is not part of this model.
- `info` looks each column up by name through `result.Column(name)`, which is in MOBZystems.Data and not part of this model. The model lists each column's own record. With duplicate column names the library's lookup may behave differently.
- Spectre.Console layout, colours and the markup parser itself. Cells are kept as markup text. Which unescaped texts the parser refuses (such as a type name `Byte[]`), and its message, are the input `Host.markupError`. The model checks a text with it only where the program hands unescaped text to the parser: info's type names and scalar's non-string values.
- Spectre's `AddRow` copies the cells it is given. The model relies on this when it reuses the `values` array.
- The native `ToString()` of numbers, booleans and other objects, including floating point. It is the string carried by `Other`.
- Culture and time zones. A date is plain fields to the second. Sub-second precision is not modelled. The current culture's default `DateTime.ToString()` is `Host.dateText`. In the csv format, `:` is treated as a literal colon, which it is under the invariant culture; .NET replaces it with the culture's time separator.
- The process's exit status. `QueryDataSource` returns 0 or 1, but Program.cs:71 discards the result of `Invoke()`, so the process itself ends with status 0 either way. `Outcome.returned` is the method's return value.
- Partial output inside a renderer. The model assumes that writing to the console does not fail.
