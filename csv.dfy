/**
  * The csv command's output: a header of quoted column names and one comma-joined line per
  * row, each value encoded by the per-value switch.
  */
module Csv {
  import opened TextUtil
  import opened Data

  /** What a null cell becomes; the closing '>' is missing in the program. */
  const NullCell := "<NULL"

  /** `a`, `b` and `c` with the one-character separator `sep` between them. */
  function Fields3(a: string, sep: char, b: string, c: string): string
  {
    a + [sep] + b + [sep] + c
  }

  lemma Fields3Slices(a: string, sep: char, b: string, c: string)
    ensures var s := Fields3(a, sep, b, c);
      |s| == |a| + |b| + |c| + 2 &&
      s[..|a|] == a && s[|a|] == sep && s[|a| + 1..|a| + 1 + |b|] == b &&
      s[|a| + 1 + |b|] == sep && s[|a| + 2 + |b|..] == c
  {
  }

  /** DateTime.ToString("yyyy-MM-dd HH:mm:ss"): the date part, a space, the time part. */
  function FormatDate(d: DateTime): string
  {
    Fields3(PadDigits(d.year, 4), '-', PadDigits(d.month, 2), PadDigits(d.day, 2)) + " " +
    Fields3(PadDigits(d.hour, 2), ':', PadDigits(d.minute, 2), PadDigits(d.second, 2))
  }

  /** Reads back the three numbers of a Fields3 string whose first field is `w` digits wide. */
  function ReadFields3(s: string, w: nat): (nat, nat, nat)
    requires |s| == w + 6
  {
    (ReadDigits(s[..w]), ReadDigits(s[w + 1..w + 3]), ReadDigits(s[w + 4..]))
  }

  lemma ReadFields3Pad(x: nat, y: nat, z: nat, w: nat, sep: char)
    requires x < Pow10(w) && y < 100 && z < 100
    ensures var s := Fields3(PadDigits(x, w), sep, PadDigits(y, 2), PadDigits(z, 2));
      |s| == w + 6 && s[w] == sep && s[w + 3] == sep && ReadFields3(s, w) == (x, y, z)
  {
    Fields3Slices(PadDigits(x, w), sep, PadDigits(y, 2), PadDigits(z, 2));
    assert Pow10(2) == 100;
    ReadPadDigits(x, w);
    ReadPadDigits(y, 2);
    ReadPadDigits(z, 2);
  }

  /** Reads the six fields back out of a "yyyy-MM-dd HH:mm:ss" string. */
  function DateFields(s: string): DateTimeFields
    requires |s| == 19
  {
    var (year, month, day) := ReadFields3(s[..10], 4);
    var (hour, minute, second) := ReadFields3(s[11..], 2);
    DateTimeFields(year, month, day, hour, minute, second)
  }

  lemma DateLayout(d: DateTime)
    ensures var s := FormatDate(d);
      |s| == 19 && s[..10] == Fields3(PadDigits(d.year, 4), '-', PadDigits(d.month, 2), PadDigits(d.day, 2)) &&
      s[10] == ' ' && s[11..] == Fields3(PadDigits(d.hour, 2), ':', PadDigits(d.minute, 2), PadDigits(d.second, 2))
  {
  }

  /** The date format is fixed-width, has its separators in place and loses nothing down to the second. */
  lemma DateRoundTrip(d: DateTime)
    ensures var s := FormatDate(d);
      |s| == 19 && s[4] == '-' && s[7] == '-' && s[10] == ' ' && s[13] == ':' && s[16] == ':' &&
      DateFields(s) == d
  {
    var s := FormatDate(d);
    DateLayout(d);
    assert Pow10(4) == 10000 by {
      assert Pow10(2) == 100;
    }
    ReadFields3Pad(d.year, d.month, d.day, 4, '-');
    ReadFields3Pad(d.hour, d.minute, d.second, 2, ':');
    assert s[4] == s[..10][4] && s[7] == s[..10][7];
    assert s[13] == s[11..][2] && s[16] == s[11..][5];
  }

  lemma DateHasNoLineBreak(d: DateTime)
    ensures '\r' !in FormatDate(d) && '\n' !in FormatDate(d)
  {
    var date := Fields3(PadDigits(d.year, 4), '-', PadDigits(d.month, 2), PadDigits(d.day, 2));
    var time := Fields3(PadDigits(d.hour, 2), ':', PadDigits(d.minute, 2), PadDigits(d.second, 2));
    assert forall c :: c in date ==> c == '-' || '0' <= c <= '9';
    assert forall c :: c in time ==> c == ':' || '0' <= c <= '9';
  }

  function Quote(s: string): string
  {
    "\"" + s + "\""
  }

  /** The --escape chain: backslashes doubled first, then CR and LF replaced by \r and \n. */
  function EscapeText(quoted: string): string
  {
    ReplaceChar(ReplaceChar(ReplaceChar(quoted, '\\', "\\\\"), '\r', "\\r"), '\n', "\\n")
  }

  function EscapeChar(c: char): string
  {
    if c == '\\' then "\\\\" else if c == '\r' then "\\r" else if c == '\n' then "\\n" else [c]
  }

  /** EscapeText, one character at a time. */
  function EscapeEach(s: string): string
  {
    if s == [] then [] else EscapeChar(s[0]) + EscapeEach(s[1..])
  }

  /** The per-value switch. */
  function CsvCell(v: Value, escape: bool): string
  {
    match v
    case Null => NullCell
    case Date(d) => FormatDate(d)
    case Text(s) => if escape then EscapeText(Quote(s)) else Quote(s)
    case Other(o) => o
  }

  /** Reverses the escaping: \\ is a backslash, \r is CR, \n is LF. */
  function UnescapeText(t: string): string
    decreases |t|
  {
    if t == [] then []
    else if t[0] == '\\' && |t| >= 2 then
      (if t[1] == 'r' then "\r" else if t[1] == 'n' then "\n" else [t[1]]) + UnescapeText(t[2..])
    else [t[0]] + UnescapeText(t[1..])
  }

  lemma EscapeSingle(c: char)
    ensures EscapeText([c]) == EscapeChar(c)
  {
    ReplaceCharSingle(c, '\\', "\\\\");
    if c == '\\' {
      ReplaceCharAbsent("\\\\", '\r', "\\r");
      ReplaceCharAbsent("\\\\", '\n', "\\n");
    } else {
      ReplaceCharSingle(c, '\r', "\\r");
      if c == '\r' {
        ReplaceCharAbsent("\\r", '\n', "\\n");
      } else {
        ReplaceCharSingle(c, '\n', "\\n");
      }
    }
  }

  lemma EscapeTextAppend(a: string, b: string)
    ensures EscapeText(a + b) == EscapeText(a) + EscapeText(b)
  {
    var a1, b1 := ReplaceChar(a, '\\', "\\\\"), ReplaceChar(b, '\\', "\\\\");
    ReplaceCharAppend(a, b, '\\', "\\\\");
    var a2, b2 := ReplaceChar(a1, '\r', "\\r"), ReplaceChar(b1, '\r', "\\r");
    ReplaceCharAppend(a1, b1, '\r', "\\r");
    ReplaceCharAppend(a2, b2, '\n', "\\n");
  }

  lemma {:induction false} EscapeIsCharwise(s: string)
    ensures EscapeText(s) == EscapeEach(s)
  {
    if s != [] {
      assert s == [s[0]] + s[1..];
      EscapeTextAppend([s[0]], s[1..]);
      EscapeSingle(s[0]);
      EscapeIsCharwise(s[1..]);
    }
  }

  lemma {:induction false} EscapeEachAppend(a: string, b: string)
    ensures EscapeEach(a + b) == EscapeEach(a) + EscapeEach(b)
  {
    if a == [] {
      assert a + b == b;
    } else {
      assert (a + b)[1..] == a[1..] + b;
      EscapeEachAppend(a[1..], b);
    }
  }

  /** With --escape, the quotes around a string pass through untouched and only its inside is escaped. */
  lemma EscapedTextCell(s: string)
    ensures CsvCell(Text(s), true) == Quote(EscapeEach(s))
  {
    EscapeIsCharwise(Quote(s));
    EscapeEachAppend("\"" + s, "\"");
    EscapeEachAppend("\"", s);
  }

  /** Escaping is lossless: it can be undone, because backslashes are doubled before CR and LF are replaced. */
  lemma {:induction false} UnescapeEscape(s: string)
    ensures UnescapeText(EscapeEach(s)) == s
  {
    if s != [] {
      var c, rest := s[0], s[1..];
      var t := EscapeEach(s);
      assert t == EscapeChar(c) + EscapeEach(rest);
      if c == '\\' || c == '\r' || c == '\n' {
        assert t[2..] == EscapeEach(rest);
      } else {
        assert t[1..] == EscapeEach(rest);
      }
      UnescapeEscape(rest);
      assert s == [c] + rest;
    }
  }

  /** Escaped text holds no raw CR or LF. */
  lemma {:induction false} EscapedHasNoLineBreak(s: string)
    ensures '\r' !in EscapeEach(s) && '\n' !in EscapeEach(s)
  {
    if s != [] {
      EscapedHasNoLineBreak(s[1..]);
    }
  }

  /** Escape mode changes nothing but backslashes, CR and LF: other text, double quotes included, passes through as it is. */
  lemma {:induction false} EscapeLeavesPlainText(s: string)
    requires '\\' !in s && '\r' !in s && '\n' !in s
    ensures EscapeEach(s) == s
    ensures CsvCell(Text(s), true) == "\"" + s + "\""
  {
    if s != [] {
      assert s == [s[0]] + s[1..];
      EscapeLeavesPlainText(s[1..]);
    }
    EscapedTextCell(s);
  }

  function CountChar(c: char, s: string): nat
  {
    if s == [] then 0 else (if s[0] == c then 1 else 0) + CountChar(c, s[1..])
  }

  /** Escaping neither adds nor removes double quotes: inner quotes are not doubled or escaped. */
  lemma {:induction false} EscapeKeepsQuotes(s: string)
    ensures CountChar('"', EscapeEach(s)) == CountChar('"', s)
  {
    if s != [] {
      var e := EscapeChar(s[0]);
      EscapeKeepsQuotes(s[1..]);
      CountCharAppend('"', e, EscapeEach(s[1..]));
      assert CountChar('"', e) == (if s[0] == '"' then 1 else 0) by {
        if |e| == 2 {
          assert e[1..][1..] == [];
        } else {
          assert e[1..] == [];
        }
      }
    }
  }

  /** A double quote anywhere in the text passes through escaping as one plain `"`. */
  lemma EscapePassesQuote(a: string, b: string)
    ensures EscapeEach(a + "\"" + b) == EscapeEach(a) + "\"" + EscapeEach(b)
  {
    EscapeEachAppend(a + "\"", b);
    EscapeEachAppend(a, "\"");
  }

  lemma {:induction false} CountCharAppend(c: char, a: string, b: string)
    ensures CountChar(c, a + b) == CountChar(c, a) + CountChar(c, b)
  {
    if a == [] {
      assert a + b == b;
    } else {
      assert (a + b)[1..] == a[1..] + b;
      CountCharAppend(c, a[1..], b);
    }
  }

  /** What each kind of value becomes in a CSV cell. */
  lemma CsvCellMeaning(v: Value, escape: bool)
    ensures v.Null? ==> CsvCell(v, escape) == "<NULL"
    ensures v.Date? ==> |CsvCell(v, escape)| == 19 && DateFields(CsvCell(v, escape)) == v.moment
    ensures v.Text? && !escape ==> CsvCell(v, escape) == "\"" + v.text + "\""
    ensures v.Text? && escape ==>
      exists inner :: CsvCell(v, escape) == "\"" + inner + "\"" && UnescapeText(inner) == v.text &&
        '\r' !in inner && '\n' !in inner && CountChar('"', inner) == CountChar('"', v.text)
    ensures v.Other? ==> CsvCell(v, escape) == v.native
  {
    match v
    case Date(d) => DateRoundTrip(d);
    case Text(s) =>
      if escape {
        EscapedTextCell(s);
        UnescapeEscape(s);
        EscapedHasNoLineBreak(s);
        EscapeKeepsQuotes(s);
        assert CsvCell(v, escape) == "\"" + EscapeEach(s) + "\"";
      }
    case _ =>
  }

  /** The header line's cells: every column name between double quotes, unescaped. */
  function HeaderCells(rs: QueryResult): seq<string>
  {
    seq(|rs.columns|, i requires 0 <= i < |rs.columns| => Quote(rs.columns[i].name))
  }

  function RowCells(row: seq<Value>, escape: bool): seq<string>
  {
    seq(|row|, i requires 0 <= i < |row| => CsvCell(row[i], escape))
  }

  /** Every line the csv command writes: the header, then one line per row in row order. */
  function CsvLines(rs: QueryResult, escape: bool): (lines: seq<string>)
    ensures |lines| == |rs.rows| + 1
    ensures lines[0] == Join(",", HeaderCells(rs))
    ensures forall k :: 0 <= k < |rs.rows| ==> lines[k + 1] == Join(",", RowCells(rs.rows[k], escape))
  {
    [Join(",", HeaderCells(rs))] +
    seq(|rs.rows|, k requires 0 <= k < |rs.rows| => Join(",", RowCells(rs.rows[k], escape)))
  }

  /**
    * The loops of the csv branch: the header, then per row a reused array of cells filled
    * column by column and joined with commas.
    */
  method RenderCsv(rs: QueryResult, escape: bool) returns (lines: seq<string>)
    ensures lines == CsvLines(rs, escape)
  {
    var n := |rs.columns|;
    lines := [Join(",", HeaderCells(rs))];
    var values := new string[n];
    var k := 0;
    while k < |rs.rows|
      invariant 0 <= k <= |rs.rows|
      invariant |lines| == k + 1
      invariant lines[0] == Join(",", HeaderCells(rs))
      invariant forall j :: 0 <= j < k ==> lines[j + 1] == Join(",", RowCells(rs.rows[j], escape))
    {
      var row := rs.rows[k];
      for i := 0 to n
        invariant forall j :: 0 <= j < i ==> values[j] == CsvCell(row[j], escape)
      {
        values[i] := CsvCell(row[i], escape);
      }
      assert values[..] == RowCells(row, escape);
      lines := lines + [Join(",", values[..])];
      k := k + 1;
    }
  }

  /** With --escape, no cell holds a line break unless an "other" value's own string does. */
  lemma EscapedCellHasNoLineBreak(v: Value)
    requires v.Other? ==> '\r' !in v.native && '\n' !in v.native
    ensures '\r' !in CsvCell(v, true) && '\n' !in CsvCell(v, true)
  {
    match v
    case Date(d) => DateHasNoLineBreak(d);
    case Text(s) =>
      EscapedTextCell(s);
      EscapedHasNoLineBreak(s);
    case _ =>
  }

  /** With --escape, a result whose names and other values hold no line break writes exactly one physical line per row. */
  lemma EscapedLinesHaveNoLineBreak(rs: QueryResult)
    requires forall i :: 0 <= i < |rs.columns| ==> '\r' !in rs.columns[i].name && '\n' !in rs.columns[i].name
    requires forall k, i :: 0 <= k < |rs.rows| && 0 <= i < |rs.rows[k]| && rs.rows[k][i].Other? ==>
      '\r' !in rs.rows[k][i].native && '\n' !in rs.rows[k][i].native
    ensures forall j :: 0 <= j < |CsvLines(rs, true)| ==>
      '\r' !in CsvLines(rs, true)[j] && '\n' !in CsvLines(rs, true)[j]
  {
    var lines := CsvLines(rs, true);
    JoinAvoids(",", HeaderCells(rs), '\r');
    JoinAvoids(",", HeaderCells(rs), '\n');
    forall j | 1 <= j < |lines|
      ensures '\r' !in lines[j] && '\n' !in lines[j]
    {
      var row := rs.rows[j - 1];
      var cells := RowCells(row, true);
      forall i | 0 <= i < |cells|
        ensures '\r' !in cells[i] && '\n' !in cells[i]
      {
        EscapedCellHasNoLineBreak(row[i]);
      }
      JoinAvoids(",", cells, '\r');
      JoinAvoids(",", cells, '\n');
    }
  }

  /** A line whose cells hold no comma splits back into exactly one cell per column, in column order. */
  lemma RowLineSplits(row: seq<Value>, escape: bool)
    requires |row| >= 1
    requires forall i :: 0 <= i < |row| ==> ',' !in CsvCell(row[i], escape)
    ensures Split(Join(",", RowCells(row, escape)), ',') == RowCells(row, escape)
  {
    SplitJoin(RowCells(row, escape), ',');
  }
}
