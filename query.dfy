/** The query runner's values: the result table and what one run of the
    embedded engine on the SQL text yields. */
module Query {

  /** A result table. Its contents are whatever the engine fetched; the model
      only stores and compares tables. */
  datatype Table = Table(columns: seq<string>, rows: seq<seq<string>>)

  /** The table shown before any run and after a failed one (pd.DataFrame()). */
  const EmptyTable: Table := Table([], [])

  /** One run of the engine on a fresh in-memory connection: the fetched table,
      or the text of the exception raised while connecting, executing or
      fetching. */
  datatype Outcome = Rows(table: Table) | Failed(message: string)

  const ErrorPrefix: string := "Error al ejecutar la consulta: "

  /** The error text shown for an engine failure: the fixed prefix followed by
      the engine's message verbatim, so it is never empty. */
  function FailureMessage(message: string): (r: string)
    ensures |r| == |ErrorPrefix| + |message|
    ensures r[..|ErrorPrefix|] == ErrorPrefix && r[|ErrorPrefix|..] == message
    ensures r != ""
  {
    ErrorPrefix + message
  }
}
