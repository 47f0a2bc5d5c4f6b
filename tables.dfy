/**
  * The console tables of the info and table commands, as the markup text of each cell.
  * Table.AddRow(string...) parses each string as markup at once; the column type names are
  * added without escaping, so the markup parser (an input here, `markupError`: the message of
  * the exception it throws for a text, if any) can refuse them.
  */
module Tables {
  import opened Wrappers
  import opened TextUtil
  import Markup
  import opened Data

  /** A table widget: header cells and rows of cells, each given as markup text. */
  datatype TableWidget = TableWidget(header: seq<string>, rows: seq<seq<string>>)

  /** The red null marker of the table and scalar commands. */
  const NullMarkup := "[red]<NULL>[/]"

  /** A table cell: a non-null value's ToString(), escaped; a null value, the red marker. */
  function CellMarkup(v: Value, dateText: DateTime -> string): string
  {
    if v.Null? then NullMarkup else Markup.Escape(NativeString(v, dateText))
  }

  /** The marker appears exactly for null, and any other value shows its own string. */
  lemma CellMarkupMeaning(v: Value, dateText: DateTime -> string)
    ensures CellMarkup(v, dateText) == NullMarkup <==> v.Null?
    ensures !v.Null? ==> Markup.Unescape(CellMarkup(v, dateText)) == NativeString(v, dateText)
  {
    if !v.Null? {
      var text := NativeString(v, dateText);
      Markup.UnescapeEscape(text);
      Markup.EscapedStartsNoTag(text);
      assert NullMarkup[0] == '[' && NullMarkup[1] == 'r';
    }
  }

  /** One row of the info table: the column's index, its escaped name and its type's name. */
  function InfoRow(c: Column): seq<string>
  {
    [NatToString(c.index), Markup.Escape(c.name), c.typeName]
  }

  function InfoTable(rs: QueryResult): TableWidget
  {
    TableWidget(["Index", "Name", "Type"],
      seq(|rs.columns|, i requires 0 <= i < |rs.columns| => InfoRow(rs.columns[i])))
  }

  /** The message for the first column whose type name the markup parser refuses, if any. */
  function FirstRejected(columns: seq<Column>, markupError: string -> Option<string>): Option<string>
  {
    if columns == [] then None
    else if markupError(columns[0].typeName).Some? then markupError(columns[0].typeName)
    else FirstRejected(columns[1..], markupError)
  }

  lemma {:induction false} FirstRejectedAt(columns: seq<Column>, markupError: string -> Option<string>, j: int)
    requires 0 <= j < |columns| && markupError(columns[j].typeName).Some?
    requires forall i :: 0 <= i < j ==> markupError(columns[i].typeName).None?
    ensures FirstRejected(columns, markupError) == markupError(columns[j].typeName)
  {
    if j > 0 {
      FirstRejectedAt(columns[1..], markupError, j - 1);
    }
  }

  lemma {:induction false} FirstRejectedNone(columns: seq<Column>, markupError: string -> Option<string>)
    requires forall i :: 0 <= i < |columns| ==> markupError(columns[i].typeName).None?
    ensures FirstRejected(columns, markupError).None?
  {
    if columns != [] {
      FirstRejectedNone(columns[1..], markupError);
    }
  }

  /** The info table, or the parser's exception for the first type name it refuses. */
  function InfoResult(rs: QueryResult, markupError: string -> Option<string>): Result<TableWidget>
  {
    match FirstRejected(rs.columns, markupError)
    case Some(m) => Err(m)
    case None => Ok(InfoTable(rs))
  }

  /** The info loop: one row per column, in column order; a refused type name throws. */
  method RenderInfo(rs: QueryResult, markupError: string -> Option<string>) returns (r: Result<TableWidget>)
    ensures r == InfoResult(rs, markupError)
  {
    var rows: seq<seq<string>> := [];
    for i := 0 to |rs.columns|
      invariant |rows| == i
      invariant forall j :: 0 <= j < i ==> rows[j] == InfoRow(rs.columns[j])
      invariant forall j :: 0 <= j < i ==> markupError(rs.columns[j].typeName).None?
    {
      var column := rs.columns[i];
      var refused := markupError(column.typeName);
      if refused.Some? {
        FirstRejectedAt(rs.columns, markupError, i);
        return Err(refused.value);
      }
      rows := rows + [[NatToString(column.index), Markup.Escape(column.name), column.typeName]];
    }
    FirstRejectedNone(rs.columns, markupError);
    assert rows == InfoTable(rs).rows;
    r := Ok(TableWidget(["Index", "Name", "Type"], rows));
  }

  /** The info table lists every column once, in order, with its position, name and type name. */
  lemma InfoListsEveryColumn(rs: QueryResult)
    ensures var t := InfoTable(rs);
      |t.rows| == |rs.columns| &&
      forall i :: 0 <= i < |t.rows| ==>
        |t.rows[i]| == 3 && IsDigits(t.rows[i][0]) && ReadDigits(t.rows[i][0]) == i &&
        Markup.Unescape(t.rows[i][1]) == rs.columns[i].name && t.rows[i][2] == rs.columns[i].typeName
  {
    var t := InfoTable(rs);
    forall i | 0 <= i < |t.rows|
      ensures ReadDigits(t.rows[i][0]) == i && Markup.Unescape(t.rows[i][1]) == rs.columns[i].name
    {
      ReadNatToString(rs.columns[i].index);
      Markup.UnescapeEscape(rs.columns[i].name);
    }
  }

  function DataRow(row: seq<Value>, dateText: DateTime -> string): seq<string>
  {
    seq(|row|, i requires 0 <= i < |row| => CellMarkup(row[i], dateText))
  }

  function DataTable(rs: QueryResult, dateText: DateTime -> string): TableWidget
  {
    TableWidget(seq(|rs.columns|, i requires 0 <= i < |rs.columns| => Markup.Escape(rs.columns[i].name)),
      seq(|rs.rows|, k requires 0 <= k < |rs.rows| => DataRow(rs.rows[k], dateText)))
  }

  /**
    * The table loops: per row, a reused array of cells filled column by column and added to
    * the table (the table keeps its own copy of the cells).
    */
  method RenderTable(rs: QueryResult, dateText: DateTime -> string) returns (t: TableWidget)
    ensures t == DataTable(rs, dateText)
  {
    var n := |rs.columns|;
    var header := seq(n, i requires 0 <= i < n => Markup.Escape(rs.columns[i].name));
    var rows: seq<seq<string>> := [];
    var values := new string[n];
    for k := 0 to |rs.rows|
      invariant |rows| == k
      invariant forall j :: 0 <= j < k ==> rows[j] == DataRow(rs.rows[j], dateText)
    {
      var row := rs.rows[k];
      for i := 0 to n
        invariant forall j :: 0 <= j < i ==> values[j] == CellMarkup(row[j], dateText)
      {
        values[i] := if row[i] != Null then Markup.Escape(NativeString(row[i], dateText)) else NullMarkup;
      }
      assert values[..] == DataRow(row, dateText);
      rows := rows + [values[..]];
    }
    t := TableWidget(header, rows);
  }

  /** The data table has the escaped column names as header and one row per result row, one cell per column. */
  lemma DataTableShape(rs: QueryResult, dateText: DateTime -> string)
    ensures var t := DataTable(rs, dateText);
      |t.header| == |rs.columns| && |t.rows| == |rs.rows| &&
      (forall i :: 0 <= i < |t.header| ==> Markup.Unescape(t.header[i]) == rs.columns[i].name) &&
      forall k, i :: 0 <= k < |t.rows| && 0 <= i < |rs.columns| ==>
        |t.rows[k]| == |rs.columns| &&
        (t.rows[k][i] == NullMarkup <==> rs.rows[k][i].Null?) &&
        (!rs.rows[k][i].Null? ==> Markup.Unescape(t.rows[k][i]) == NativeString(rs.rows[k][i], dateText))
  {
    var t := DataTable(rs, dateText);
    forall i | 0 <= i < |t.header|
      ensures Markup.Unescape(t.header[i]) == rs.columns[i].name
    {
      Markup.UnescapeEscape(rs.columns[i].name);
    }
    forall k, i | 0 <= k < |t.rows| && 0 <= i < |rs.columns|
      ensures (t.rows[k][i] == NullMarkup <==> rs.rows[k][i].Null?) &&
        (!rs.rows[k][i].Null? ==> Markup.Unescape(t.rows[k][i]) == NativeString(rs.rows[k][i], dateText))
    {
      CellMarkupMeaning(rs.rows[k][i], dateText);
    }
  }
}
