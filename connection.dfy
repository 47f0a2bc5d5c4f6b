/**
  * The connection-type switch: the optional --type value and the source argument become a
  * connection of one of three provider families, or the invocation fails.
  */
module Connections {
  import opened Wrappers

  datatype Provider = OleDb | Sqlite | MySql

  /** A constructed (not yet opened) connection and the connection string it was given. */
  datatype Connection = Connection(provider: Provider, connectionString: string)

  const JetPrefix := "Provider=Microsoft.Jet.OLEDB.4.0;Data Source="
  const AcePrefix := "Provider=Microsoft.ACE.OLEDB.12.0;Data Source="
  const AceSuffix := ";Persist Security Info=False"
  const SqlitePrefix := "Data Source="

  /** The remediation hint put in front of the OleDb library's own message for a raw source. */
  const OleDbHint := "Could not process the OleDd connection string. It should contain at least 'Provider='. Alternatively, specify --type and use a file name for the source.\r\nMessage was: "

  /** No type, or one of the four the switch has a case for. */
  predicate KnownType(typ: Option<string>)
  {
    typ.None? || typ.value == "jet" || typ.value == "ace" || typ.value == "sqlite" || typ.value == "mysql"
  }

  function ProviderOf(typ: Option<string>): Provider
  {
    if typ == Some("sqlite") then Sqlite else if typ == Some("mysql") then MySql else OleDb
  }

  /** The connection string the switch builds from the source for a known type. */
  function BuiltString(typ: Option<string>, source: string): string
    requires KnownType(typ)
  {
    if typ == Some("jet") then JetPrefix + source
    else if typ == Some("ace") then AcePrefix + source + AceSuffix
    else if typ == Some("sqlite") then SqlitePrefix + source
    else source
  }

  /**
    * The connection's constructor. `reject` stands for the provider library, which refuses
    * some connection strings by throwing; its message is the exception's.
    */
  function Construct(p: Provider, cs: string, reject: (Provider, string) -> Option<string>): Result<Connection>
  {
    match reject(p, cs)
    case Some(m) => Err(m)
    case None => Ok(Connection(p, cs))
  }

  /** A raw source is taken as an OleDb connection string; a refusal gets a hint in front. */
  function TryCreateOleDbConnection(source: string, reject: (Provider, string) -> Option<string>): (r: Result<Connection>)
    ensures r.Ok? <==> reject(OleDb, source).None?
    ensures r.Ok? ==> r.value == Connection(OleDb, source)
    ensures r.Err? ==> r.message == OleDbHint + reject(OleDb, source).value
  {
    match Construct(OleDb, source, reject)
    case Ok(c) => Ok(c)
    case Err(m) => Err(OleDbHint + m)
  }

  /** The source, read back out of the connection string built for the given type. */
  function SourceOf(typ: Option<string>, cs: string): string
  {
    if typ == Some("jet") && |JetPrefix| <= |cs| then cs[|JetPrefix|..]
    else if typ == Some("ace") && |AcePrefix| + |AceSuffix| <= |cs| then cs[|AcePrefix|..|cs| - |AceSuffix|]
    else if typ == Some("sqlite") && |SqlitePrefix| <= |cs| then cs[|SqlitePrefix|..]
    else cs
  }

  /** The `type switch`: one case per known type, any other type throws. */
  function CreateConnection(typ: Option<string>, source: string, reject: (Provider, string) -> Option<string>): (r: Result<Connection>)
    ensures !KnownType(typ) ==> r == Err("Unknown type '" + typ.value + "'")
    ensures KnownType(typ) ==> (r.Ok? <==> reject(ProviderOf(typ), BuiltString(typ, source)).None?)
    ensures KnownType(typ) && typ.Some? && r.Err? ==> r.message == reject(ProviderOf(typ), BuiltString(typ, source)).value
    ensures r.Ok? ==> KnownType(typ) && r.value.provider == ProviderOf(typ)
    ensures r.Ok? ==> reject(r.value.provider, r.value.connectionString).None?
    ensures r.Ok? ==> SourceOf(typ, r.value.connectionString) == source
    ensures r.Ok? && typ == Some("jet") ==> r.value.connectionString == JetPrefix + source
    ensures r.Ok? && typ == Some("ace") ==> r.value.connectionString == AcePrefix + source + AceSuffix
    ensures r.Ok? && typ == Some("sqlite") ==> r.value.connectionString == SqlitePrefix + source
    ensures r.Ok? && (typ.None? || typ == Some("mysql")) ==> r.value.connectionString == source
    ensures r.Err? && typ.None? ==>
      reject(OleDb, source).Some? && r.message == OleDbHint + reject(OleDb, source).value
  {
    match typ
    case None => TryCreateOleDbConnection(source, reject)
    case Some(t) =>
      if t == "jet" then
        assert (JetPrefix + source)[|JetPrefix|..] == source;
        Construct(OleDb, JetPrefix + source, reject)
      else if t == "ace" then
        var cs := AcePrefix + source + AceSuffix;
        assert cs[|AcePrefix|..|cs| - |AceSuffix|] == source;
        Construct(OleDb, cs, reject)
      else if t == "sqlite" then
        assert (SqlitePrefix + source)[|SqlitePrefix|..] == source;
        Construct(Sqlite, SqlitePrefix + source, reject)
      else if t == "mysql" then
        Construct(MySql, source, reject)
      else
        Err("Unknown type '" + t + "'")
  }
}
