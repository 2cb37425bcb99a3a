/** JDBC result sets as values: the column metadata of a statement's result
    and the rows its cursor yields, read as the executor reads them. */
module ResultSets {
  import opened Wrappers

  /** The java.sql.Types codes the executor tells apart. */
  const BIGINT: int := -5
  const INTEGER: int := 4
  const DOUBLE: int := 8
  const VARCHAR: int := 12

  /** One column of the metadata: its name (for a value column, the full
      series path) and its java.sql.Types code. */
  datatype Column = Column(name: string, sqlType: int)

  /** One row: the long read from column 1 and the strings read from
      columns 2..n, None standing for SQL NULL. */
  datatype Row = Row(time: int, cells: seq<Option<string>>)

  /** columns[0] describes JDBC column 1 (the time column); columns[c + 1]
      and cells[c] of every row describe JDBC column c + 2. */
  datatype Table = Table(columns: seq<Column>, rows: seq<Row>)

  /** A cursor yields one cell per value column in every row. */
  predicate WellFormed(t: Table) {
    forall r :: 0 <= r < |t.rows| ==> |t.rows[r].cells| + 1 == |t.columns|
  }

  type ResultSet = t: Table | WellFormed(t) witness Table([], [])
}
