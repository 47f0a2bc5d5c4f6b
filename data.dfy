/**
  * The materialised query result the program renders: ordered columns (index, name and the
  * name of the column's CLR type) and rows holding one value per column.
  */
module Data {

  /** A DateTime, to the second. */
  datatype DateTimeFields = DateTimeFields(year: nat, month: nat, day: nat, hour: nat, minute: nat, second: nat)
  {
    predicate Valid()
    {
      1 <= year <= 9999 && 1 <= month <= 12 && 1 <= day <= DaysInMonth(year, month) &&
      hour < 24 && minute < 60 && second < 60
    }
  }

  predicate IsLeapYear(y: nat)
  {
    y % 4 == 0 && (y % 100 != 0 || y % 400 == 0)
  }

  function DaysInMonth(y: nat, m: nat): nat
  {
    if m == 2 then (if IsLeapYear(y) then 29 else 28)
    else if m == 4 || m == 6 || m == 9 || m == 11 then 30
    else 31
  }

  /** The range DateTime can hold: years 1 to 9999. */
  type DateTime = d: DateTimeFields | d.Valid() witness DateTimeFields(1, 1, 1, 0, 0, 0)

  /**
    * A cell value as the renderers distinguish it: null, a DateTime, a string, or any other
    * object, carried as the string its ToString() gives.
    */
  datatype Value = Null | Date(moment: DateTime) | Text(text: string) | Other(native: string)

  /** The string a non-null value's ToString() gives; a DateTime's depends on the culture. */
  function NativeString(v: Value, dateText: DateTime -> string): string
    requires !v.Null?
  {
    match v
    case Date(d) => dateText(d)
    case Text(s) => s
    case Other(o) => o
  }

  datatype Column = Column(index: nat, name: string, typeName: string)

  datatype ResultSet = ResultSet(columns: seq<Column>, rows: seq<seq<Value>>)
  {
    /** Columns are indexed by position, and every row has one value per column. */
    predicate WellFormed()
    {
      (forall i :: 0 <= i < |columns| ==> columns[i].index == i) &&
      (forall k :: 0 <= k < |rows| ==> |rows[k]| == |columns|)
    }
  }

  type QueryResult = rs: ResultSet | rs.WellFormed() witness ResultSet([], [])
}
