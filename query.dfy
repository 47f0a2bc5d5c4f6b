/**
  * QueryDataSource: build the connection, open it, run the query with the bound parameters,
  * then dispatch on the command (info, the silent zero-row case, scalar, table, csv), and
  * turn any exception into an error message and a return value of 1.
  */
module Query {
  import opened Wrappers
  import opened TextUtil
  import Markup
  import opened Data
  import opened Connections
  import opened Parameters
  import opened Csv
  import opened Tables

  /** The parsed command line of one invocation. */
  datatype Invocation = Invocation(
    command: string,
    source: string,
    query: string,
    parameters: Option<seq<string>>,
    typ: Option<string>,
    verbose: bool,
    escape: bool)

  /**
    * What lies outside the program: the provider libraries' constructors (which may refuse a
    * connection string), opening the connection, the engine running the query, the current
    * culture's DateTime.ToString(), and Spectre.Console's markup parser, which throws for some
    * texts (`markupError` gives the exception's message). The parser is consulted only where
    * text from outside reaches it unescaped: column type names in info, and a scalar value
    * that is not a string (the *Interpolated writers escape string arguments only).
    */
  datatype Host = Host(
    reject: (Provider, string) -> Option<string>,
    open: Connection -> Option<string>,
    select: (Connection, string, seq<SqlParameter>) -> Result<QueryResult>,
    dateText: DateTime -> string,
    markupError: string -> Option<string>)

  /** One write to the console. */
  datatype Output =
    | MarkupLine(markup: string)   // AnsiConsole.MarkupLine, MarkupLineInterpolated
    | MarkupText(markup: string)   // AnsiConsole.MarkupInterpolated, no line break
    | TextLine(text: string)       // Console.WriteLine
    | Widget(table: TableWidget)   // AnsiConsole.Write of a table

  /** What an invocation writes, and the value QueryDataSource returns (0 or 1). */
  datatype Outcome = Outcome(output: seq<Output>, returned: int)

  const ErrorPrefix := "Error executing 'query': "
  const OpenedMarkup := "[green]Connection opened[/]"
  const ZeroRowsMarkup := "[green]Query returned 0 rows[/]"

  function UsingMarkup(cs: string): string
  {
    "[green]Using connection string '" + Markup.Escape(cs) + "'[/]"
  }

  function CountMarkup(n: nat): string
  {
    "[green]" + NatToString(n) + " row(s)[/]"
  }

  function RowCountMessage(n: nat): string
  {
    "Query returned " + NatToString(n) + " rows, expected 1"
  }

  function ColumnCountMessage(n: nat): string
  {
    "Query returned " + NatToString(n) + " columns, expected 1"
  }

  function UnknownCommandMessage(command: string): string
  {
    "Unknow opration: '" + command
  }

  /** The catch block: what was written so far, the red error message, and 1 returned. */
  function Failed(written: seq<Output>, message: string): Outcome
  {
    Outcome(written + [MarkupText("[red]" + ErrorPrefix + Markup.Escape(message) + "[/]")], 1)
  }

  /** The verbose line shows the connection string exactly as it is. */
  lemma UsingShowsConnectionString(cs: string)
    ensures exists e :: UsingMarkup(cs) == "[green]Using connection string '" + e + "'[/]" && Markup.Unescape(e) == cs
  {
    Markup.UnescapeEscape(cs);
    assert UsingMarkup(cs) == "[green]Using connection string '" + Markup.Escape(cs) + "'[/]";
  }

  /**
    * A failure keeps everything written before it, returns 1, and adds one red line without a
    * line break that shows the exception's message exactly as it is.
    */
  lemma FailedShowsMessage(written: seq<Output>, message: string)
    ensures var o := Failed(written, message);
      o.returned == 1 && |o.output| == |written| + 1 && o.output[..|written|] == written &&
      exists e :: o.output[|written|] == MarkupText("[red]" + ErrorPrefix + e + "[/]") && Markup.Unescape(e) == message
  {
    Markup.UnescapeEscape(message);
    var o := Failed(written, message);
    assert o.output[|written|] == MarkupText("[red]" + ErrorPrefix + Markup.Escape(message) + "[/]");
  }

  /** --escape is read for csv only; every other command runs with it off. */
  function EscapeFor(command: string, escape: bool): bool
  {
    command == "csv" && escape
  }

  function TextLines(lines: seq<string>): seq<Output>
  {
    seq(|lines|, i requires 0 <= i < |lines| => TextLine(lines[i]))
  }

  /**
    * The scalar line: the red marker for null; a string, escaped; any other value's
    * ToString() as it is, since interpolation escapes string arguments only.
    */
  function ScalarMarkup(v: Value, dateText: DateTime -> string): string
  {
    match v
    case Null => NullMarkup
    case Text(s) => Markup.Escape(s)
    case _ => NativeString(v, dateText)
  }

  /** The scalar line, or the parser's exception when it refuses an unescaped value. */
  function ScalarWrite(v: Value, host: Host): Result<seq<Output>>
  {
    if (v.Date? || v.Other?) && host.markupError(NativeString(v, host.dateText)).Some? then
      Err(host.markupError(NativeString(v, host.dateText)).value)
    else
      Ok([MarkupLine(ScalarMarkup(v, host.dateText))])
  }

  /** The if/else chain on the command, once the query has produced its result. */
  function Dispatch(command: string, rs: QueryResult, escape: bool, verbose: bool, host: Host): Result<seq<Output>>
  {
    if command == "info" then
      match InfoResult(rs, host.markupError)
      case Err(m) => Err(m)
      case Ok(t) => Ok([Widget(t)])
    else if |rs.rows| == 0 then
      Ok(if verbose then [MarkupLine(ZeroRowsMarkup)] else [])
    else if command == "scalar" then
      if |rs.rows| != 1 then Err(RowCountMessage(|rs.rows|))
      else if |rs.columns| != 1 then Err(ColumnCountMessage(|rs.columns|))
      else ScalarWrite(rs.rows[0][0], host)
    else if command == "table" then
      Ok([Widget(DataTable(rs, host.dateText))] + (if verbose then [MarkupLine(CountMarkup(|rs.rows|))] else []))
    else if command == "csv" then
      Ok(TextLines(CsvLines(rs, escape)))
    else
      Err(UnknownCommandMessage(command))
  }

  /** What one invocation writes and the value QueryDataSource returns. */
  function Run(inv: Invocation, host: Host): Outcome
  {
    match CreateConnection(inv.typ, inv.source, host.reject)
    case Err(m) => Failed([], m)
    case Ok(connection) =>
      var announced := if inv.verbose then [MarkupLine(UsingMarkup(connection.connectionString))] else [];
      match host.open(connection)
      case Some(m) => Failed(announced, m)
      case None =>
        var prelude := announced + (if inv.verbose then [MarkupLine(OpenedMarkup)] else []);
        match host.select(connection, inv.query, BindParameters(inv.parameters))
        case Err(m) => Failed(prelude, m)
        case Ok(rs) =>
          match Dispatch(inv.command, rs, EscapeFor(inv.command, inv.escape), inv.verbose, host)
          case Err(m) => Failed(prelude, m)
          case Ok(written) => Outcome(prelude + written, 0)
  }

  /** The program's QueryDataSource, step by step, with its early throws. */
  method QueryDataSource(inv: Invocation, host: Host) returns (outcome: Outcome)
    ensures outcome == Run(inv, host)
  {
    var escape := if inv.command == "csv" then inv.escape else false;
    var created := CreateConnection(inv.typ, inv.source, host.reject);
    if created.Err? {
      return Failed([], created.message);
    }
    var connection := created.value;
    var output: seq<Output> := [];
    if inv.verbose {
      output := output + [MarkupLine(UsingMarkup(connection.connectionString))];
    }
    var openError := host.open(connection);
    if openError.Some? {
      return Failed(output, openError.value);
    }
    if inv.verbose {
      output := output + [MarkupLine(OpenedMarkup)];
    }
    var sqlParameters := BindParameters(inv.parameters);
    var selected := host.select(connection, inv.query, sqlParameters);
    if selected.Err? {
      return Failed(output, selected.message);
    }
    var result := selected.value;
    var rowCount := |result.rows|;
    if inv.command == "info" {
      var columnTable := RenderInfo(result, host.markupError);
      if columnTable.Err? {
        return Failed(output, columnTable.message);
      }
      output := output + [Widget(columnTable.value)];
    } else if rowCount == 0 {
      if inv.verbose {
        output := output + [MarkupLine(ZeroRowsMarkup)];
      }
    } else if inv.command == "scalar" {
      if rowCount != 1 {
        return Failed(output, RowCountMessage(rowCount));
      }
      if |result.columns| != 1 {
        return Failed(output, ColumnCountMessage(|result.columns|));
      }
      var value := result.rows[0][0];
      if value == Null {
        output := output + [MarkupLine(NullMarkup)];
      } else if value.Text? {
        output := output + [MarkupLine(Markup.Escape(value.text))];
      } else {
        var shown := NativeString(value, host.dateText);
        var refused := host.markupError(shown);
        if refused.Some? {
          return Failed(output, refused.value);
        }
        output := output + [MarkupLine(shown)];
      }
    } else if inv.command == "table" {
      var dataTable := RenderTable(result, host.dateText);
      output := output + [Widget(dataTable)];
      if inv.verbose {
        output := output + [MarkupLine(CountMarkup(|result.rows|))];
      }
    } else if inv.command == "csv" {
      var lines := RenderCsv(result, escape);
      output := output + TextLines(lines);
    } else {
      return Failed(output, UnknownCommandMessage(inv.command));
    }
    return Outcome(output, 0);
  }

  /** A successful dispatch writes no error text. */
  lemma DispatchWritesNoError(command: string, rs: QueryResult, escape: bool, verbose: bool, host: Host)
    ensures var d := Dispatch(command, rs, escape, verbose, host);
      d.Ok? ==> forall i :: 0 <= i < |d.value| ==> !d.value[i].MarkupText?
  {
  }

  /**
    * QueryDataSource returns 0 or 1; it returns 1 exactly when the last write is the red
    * error message, and that message is the only text written without a line break.
    */
  lemma ReturnReportsFailure(inv: Invocation, host: Host)
    ensures var o := Run(inv, host);
      (o.returned == 0 || o.returned == 1) &&
      (o.returned == 1 <==> |o.output| > 0 && o.output[|o.output| - 1].MarkupText?) &&
      (o.returned == 1 ==> "[red]" + ErrorPrefix <= o.output[|o.output| - 1].markup) &&
      forall i :: 0 <= i < |o.output| - 1 ==> !o.output[i].MarkupText?
  {
    var c := CreateConnection(inv.typ, inv.source, host.reject);
    if c.Ok? && host.open(c.value).None? {
      var s := host.select(c.value, inv.query, BindParameters(inv.parameters));
      if s.Ok? {
        DispatchWritesNoError(inv.command, s.value, EscapeFor(inv.command, inv.escape), inv.verbose, host);
      }
    }
  }

  /** A --type the switch does not know fails before anything is written. */
  lemma UnknownTypeFails(inv: Invocation, host: Host)
    requires inv.typ.Some? && !KnownType(inv.typ)
    ensures Run(inv, host) == Failed([], "Unknown type '" + inv.typ.value + "'")
  {
  }

  /** The --escape flag changes nothing for info, scalar, table or any other non-csv command. */
  lemma EscapeOnlyAffectsCsv(inv: Invocation, host: Host)
    requires inv.command != "csv"
    ensures Run(inv.(escape := true), host) == Run(inv.(escape := false), host)
  {
  }

  /** The engine receives the query text and the bound parameters, and the verbose lines come first. */
  lemma QueryRunsWithBoundParameters(inv: Invocation, host: Host, connection: Connection, rs: QueryResult)
    requires CreateConnection(inv.typ, inv.source, host.reject) == Ok(connection)
    requires host.open(connection).None?
    requires host.select(connection, inv.query, BindParameters(inv.parameters)) == Ok(rs)
    ensures var prelude := if inv.verbose then [MarkupLine(UsingMarkup(connection.connectionString)), MarkupLine(OpenedMarkup)] else [];
      var d := Dispatch(inv.command, rs, EscapeFor(inv.command, inv.escape), inv.verbose, host);
      Run(inv, host) == if d.Ok? then Outcome(prelude + d.value, 0) else Failed(prelude, d.message)
  {
  }

  /**
    * info lists every column, in order, whatever the number of rows; it fails only when the
    * markup parser refuses a type name, with the message for the first such column.
    */
  lemma InfoIgnoresRows(rs: QueryResult, escape: bool, verbose: bool, host: Host)
    ensures var d := Dispatch("info", rs, escape, verbose, host);
      (d.Ok? <==> forall i :: 0 <= i < |rs.columns| ==> host.markupError(rs.columns[i].typeName).None?) &&
      (d.Err? ==>
         exists j :: 0 <= j < |rs.columns| && host.markupError(rs.columns[j].typeName) == Some(d.message) &&
           forall i :: 0 <= i < j ==> host.markupError(rs.columns[i].typeName).None?) &&
      (d.Ok? ==>
         |d.value| == 1 && d.value[0].Widget? &&
         var t := d.value[0].table;
         t.header == ["Index", "Name", "Type"] && |t.rows| == |rs.columns| &&
         forall i :: 0 <= i < |t.rows| ==>
           IsDigits(t.rows[i][0]) && ReadDigits(t.rows[i][0]) == i &&
           Markup.Unescape(t.rows[i][1]) == rs.columns[i].name && t.rows[i][2] == rs.columns[i].typeName)
  {
    InfoListsEveryColumn(rs);
    var d := Dispatch("info", rs, escape, verbose, host);
    if forall i :: 0 <= i < |rs.columns| ==> host.markupError(rs.columns[i].typeName).None? {
      FirstRejectedNone(rs.columns, host.markupError);
    } else {
      var j := FirstRefusedIndex(rs.columns, host.markupError);
      FirstRejectedAt(rs.columns, host.markupError, j);
    }
  }

  /** The position of the first column whose type name the parser refuses. */
  lemma FirstRefusedIndex(columns: seq<Column>, markupError: string -> Option<string>) returns (j: int)
    requires exists i :: 0 <= i < |columns| && markupError(columns[i].typeName).Some?
    ensures 0 <= j < |columns| && markupError(columns[j].typeName).Some?
    ensures forall i :: 0 <= i < j ==> markupError(columns[i].typeName).None?
  {
    j := 0;
    while markupError(columns[j].typeName).None?
      invariant 0 <= j < |columns|
      invariant forall i :: 0 <= i < j ==> markupError(columns[i].typeName).None?
      invariant exists i :: j <= i < |columns| && markupError(columns[i].typeName).Some?
      decreases |columns| - j
    {
      j := j + 1;
    }
  }

  /** With no rows, every command but info (scalar included) succeeds and writes exactly the "0 rows" line when verbose, nothing otherwise. */
  lemma ZeroRowsWriteNoData(command: string, rs: QueryResult, escape: bool, verbose: bool, host: Host)
    requires command != "info" && |rs.rows| == 0
    ensures var d := Dispatch(command, rs, escape, verbose, host);
      d.Ok? && |d.value| == (if verbose then 1 else 0) &&
      forall i :: 0 <= i < |d.value| ==> d.value[i] == MarkupLine(ZeroRowsMarkup)
  {
  }

  /**
    * scalar checks the row count first, then the column count, then writes the single value:
    * the red marker for null, a string escaped so that it shows as it is, and any other value's
    * string unescaped, which fails when the markup parser refuses it.
    */
  lemma ScalarShape(rs: QueryResult, escape: bool, verbose: bool, host: Host)
    requires |rs.rows| >= 1
    ensures var d := Dispatch("scalar", rs, escape, verbose, host);
      (|rs.rows| != 1 ==> d == Err("Query returned " + NatToString(|rs.rows|) + " rows, expected 1")) &&
      (|rs.rows| == 1 && |rs.columns| != 1 ==> d == Err("Query returned " + NatToString(|rs.columns|) + " columns, expected 1")) &&
      (|rs.rows| == 1 && |rs.columns| == 1 ==>
        var v := rs.rows[0][0];
        (v.Null? ==> d == Ok([MarkupLine("[red]<NULL>[/]")])) &&
        (v.Text? ==>
           d.Ok? && |d.value| == 1 && d.value[0].MarkupLine? &&
           d.value[0].markup != "[red]<NULL>[/]" && Markup.Unescape(d.value[0].markup) == v.text) &&
        ((v.Date? || v.Other?) ==>
           var shown := NativeString(v, host.dateText);
           (host.markupError(shown).None? ==> d == Ok([MarkupLine(shown)])) &&
           (host.markupError(shown).Some? ==> d == Err(host.markupError(shown).value))))
  {
    if |rs.rows| == 1 && |rs.columns| == 1 && rs.rows[0][0].Text? {
      CellMarkupMeaning(rs.rows[0][0], host.dateText);
    }
  }

  /** table writes one table row per result row and, when verbose, a count equal to the number of rows. */
  lemma TableCountsRows(rs: QueryResult, escape: bool, verbose: bool, host: Host)
    requires |rs.rows| >= 1
    ensures var d := Dispatch("table", rs, escape, verbose, host);
      d.Ok? && d.value[0] == Widget(DataTable(rs, host.dateText)) &&
      |DataTable(rs, host.dateText).rows| == |rs.rows| &&
      (verbose ==>
         |d.value| == 2 && d.value[1].MarkupLine? &&
         exists digits :: d.value[1].markup == "[green]" + digits + " row(s)[/]" &&
           IsDigits(digits) && ReadDigits(digits) == |rs.rows|) &&
      (!verbose ==> |d.value| == 1)
  {
    DataTableShape(rs, host.dateText);
    ReadNatToString(|rs.rows|);
  }

  /** csv writes the header line and then exactly one line per row, each row's cells in column order. */
  lemma CsvWritesHeaderAndRows(rs: QueryResult, escape: bool, verbose: bool, host: Host)
    requires |rs.rows| >= 1
    ensures var d := Dispatch("csv", rs, escape, verbose, host);
      d.Ok? && |d.value| == |rs.rows| + 1 &&
      d.value[0] == TextLine(Join(",", HeaderCells(rs))) &&
      forall k :: 0 <= k < |rs.rows| ==> d.value[k + 1] == TextLine(Join(",", RowCells(rs.rows[k], escape)))
  {
    var lines := CsvLines(rs, escape);
    var d := Dispatch("csv", rs, escape, verbose, host);
    assert d == Ok(TextLines(lines));
    forall k | 0 <= k < |rs.rows|
      ensures d.value[k + 1] == TextLine(Join(",", RowCells(rs.rows[k], escape)))
    {
      assert d.value[k + 1] == TextLine(lines[k + 1]);
    }
  }

  /** A command outside the four fails only once the query has returned rows. */
  lemma UnknownCommandFails(command: string, rs: QueryResult, escape: bool, verbose: bool, host: Host)
    requires command != "info" && command != "scalar" && command != "table" && command != "csv"
    ensures |rs.rows| >= 1 ==> Dispatch(command, rs, escape, verbose, host) == Err("Unknow opration: '" + command)
    ensures |rs.rows| == 0 ==> Dispatch(command, rs, escape, verbose, host).Ok?
  {
  }
}
