/** The in-memory table that `simplify_csv` works on: the DataFrame that
    `read_csv` produces, reduced to column names and cell texts. */
module Tables {
  import opened Wrappers

  /** One data row; a cell is `None` where pandas reads the CSV field as NaN. */
  type Row = seq<Option<string>>

  /** Column names in file order and the data rows below them. */
  datatype Table = Table(header: seq<string>, rows: seq<Row>)

  /** Every row has one cell per column. */
  predicate Rectangular(t: Table) {
    forall i :: 0 <= i < |t.rows| ==> |t.rows[i]| == |t.header|
  }

  /** Position of the first column called `name`. A DataFrame read from CSV
      never has two columns of one name (pandas renames repeats), so this is
      the column `name` denotes. */
  function IndexOf(names: seq<string>, name: string): (k: nat)
    requires name in names
    ensures k < |names| && names[k] == name
    ensures forall j :: 0 <= j < k ==> names[j] != name
  {
    if names[0] == name then 0 else 1 + IndexOf(names[1..], name)
  }

  /** `df[name][i]`: the cell of row `i` in the column called `name`. */
  function At(t: Table, i: int, name: string): Option<string>
    requires Rectangular(t) && 0 <= i < |t.rows| && name in t.header
  {
    t.rows[i][IndexOf(t.header, name)]
  }
}
