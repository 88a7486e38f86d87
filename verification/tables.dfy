/**
 The table abstraction the cleaning functions operate on: an ordered list
 of labelled columns, each with a storage kind, and a sequence of rows whose
 cells line up with the columns.
 */
module Tables {
  import opened Values

  datatype Column = Column(name: string, kind: Kind)

  /** One row: the cell of column `j` is at position `j`. */
  type Row = seq<Value>

  datatype Table = Table(columns: seq<Column>, rows: seq<Row>)

  function Labels(columns: seq<Column>): (ls: seq<string>)
    ensures |ls| == |columns|
    ensures forall j :: 0 <= j < |columns| ==> ls[j] == columns[j].name
  {
    seq(|columns|, j requires 0 <= j < |columns| => columns[j].name)
  }

  /** Every row has one cell per column. */
  ghost predicate Aligned(rows: seq<Row>, width: nat) {
    forall i :: 0 <= i < |rows| ==> |rows[i]| == width
  }

  /**
   The engine's invariant on a table: labels are unique (columns are kept in
   a name-keyed dictionary) and rows are aligned with the columns.
   */
  ghost predicate WellFormed(t: Table) {
    && (forall j, k :: 0 <= j < k < |t.columns| ==> t.columns[j].name != t.columns[k].name)
    && Aligned(t.rows, |t.columns|)
  }

  /** Position of the column labelled `name`; looking up an absent name is a key error. */
  function ColumnIndex(columns: seq<Column>, name: string): (c: nat)
    requires name in Labels(columns)
    ensures c < |columns| && columns[c].name == name
    ensures forall j :: 0 <= j < c ==> columns[j].name != name
  {
    if columns[0].name == name then 0
    else
      assert Labels(columns) == [columns[0].name] + Labels(columns[1..]);
      1 + ColumnIndex(columns[1..], name)
  }

  /** Changing the storage kind of a column keeps the labels, and so the table's well-formedness. */
  function WithKind(t: Table, c: nat, kind: Kind): (r: Table)
    requires WellFormed(t) && c < |t.columns|
    ensures WellFormed(r) && Labels(r.columns) == Labels(t.columns) && r.rows == t.rows
    ensures r.columns[c].kind == kind
    ensures forall j :: 0 <= j < |t.columns| && j != c ==> r.columns[j] == t.columns[j]
  {
    var r := Table(t.columns[c := Column(t.columns[c].name, kind)], t.rows);
    assert Labels(r.columns) == Labels(t.columns);
    r
  }

  /** In a well-formed table the name names exactly one column. */
  lemma ColumnIndexUnique(t: Table, name: string, j: nat)
    requires WellFormed(t) && j < |t.columns| && t.columns[j].name == name
    ensures ColumnIndex(t.columns, name) == j
  {
  }

  /** The cells of column `c`, top to bottom. */
  function ColumnValues(rows: seq<Row>, c: nat): (vs: seq<Value>)
    requires forall i :: 0 <= i < |rows| ==> c < |rows[i]|
    ensures |vs| == |rows|
    ensures forall i :: 0 <= i < |rows| ==> vs[i] == rows[i][c]
  {
    seq(|rows|, i requires 0 <= i < |rows| => rows[i][c])
  }

  /**
   The table with column `c` replaced by `col`: the position, name and kind
   of the column and every other cell stay as they were.
   */
  function WithColumn(t: Table, c: nat, col: seq<Value>): (r: Table)
    requires WellFormed(t) && c < |t.columns| && |col| == |t.rows|
    ensures WellFormed(r) && r.columns == t.columns && |r.rows| == |t.rows|
    ensures forall i :: 0 <= i < |t.rows| ==> r.rows[i] == t.rows[i][c := col[i]]
  {
    Table(t.columns, seq(|t.rows|, i requires 0 <= i < |t.rows| => t.rows[i][c := col[i]]))
  }
}
