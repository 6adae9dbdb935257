/** The tabular data the ingestion works on: cells that may be missing,
    rows keyed by column name, and a table with an ordered column list. */
module Records {

  /** One cell of the parsed CSV: absent (pandas' NaN / None), text, or a
      number. */
  datatype Cell = Missing | Str(s: string) | Num(n: real)

  /** A row, or a document built from one: column name to cell. */
  type Row = map<string, Cell>

  /** A parsed table: its columns in order and its rows in source order. */
  datatype Table = Table(columns: seq<string>, rows: seq<Row>)

  /** The only exception of the normalisation this model keeps: a column
      looked up by name that the table does not have. */
  datatype Error = KeyError(key: string)

  const EMPLOYEE_ID: string := "Employee_ID"
  const AGE: string := "Age"
  const ANNUAL_SALARY: string := "Annual Salary"
  const BONUS: string := "Bonus %"

  /** The columns whose missing cells are filled with the text sentinel. */
  const FILL_COLUMNS: seq<string> := ["Business Unit", "Gender", "Exit Date", "Job Title"]

  /** The text sentinel for a missing value. */
  const UNKNOWN: Cell := Str("Unknown")

  predicate Distinct(cols: seq<string>) {
    forall i, j :: 0 <= i < j < |cols| ==> cols[i] != cols[j]
  }

  /** What a data frame guarantees: column names are distinct and every row
      has a cell in exactly the table's columns. */
  predicate WellFormed(t: Table) {
    && Distinct(t.columns)
    && forall i :: 0 <= i < |t.rows| ==> t.rows[i].Keys == (set c | c in t.columns)
  }

  /** No cell of the row is missing. */
  predicate NoMissing(row: Row) {
    forall k :: k in row ==> !row[k].Missing?
  }
}
