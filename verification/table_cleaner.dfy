/**
 The row-cleaning functions of one table column: keeping the rows whose cell
 is present and of the expected type (converting those cells), collecting
 the rows that are not, and replacing every occurrence of a value.

 Both row filters run the same missing-value and type tests; that logic is
 written once, as `Partition`, and both public functions are projections of
 it.
 */
module TableCleaner {
  import opened Options
  import opened Seqs
  import opened Values
  import opened Tables

  /** Row test: the cell of column `c` is missing, for a column of storage kind `kind`. */
  function MissingAt(kind: Kind, c: nat): (p: Row -> bool)
    ensures forall r: Row :: p(r) <==> c < |r| && IsMissing(kind, r[c])
  {
    r => c < |r| && IsMissing(kind, r[c])
  }

  /** Row test: the cell of column `c` converts to the expected type. */
  function ConvertsAt(conv: Converter, c: nat): (p: Row -> bool)
    ensures forall r: Row :: p(r) <==> c < |r| && conv(r[c]).Some?
  {
    var isA := HasType(conv);
    r => c < |r| && isA(r[c])
  }

  /** Rows kept by the valid-rows filter: present and convertible. */
  function Usable(kind: Kind, c: nat, conv: Converter): (p: Row -> bool)
    ensures forall r: Row :: p(r) <==> c < |r| && !IsMissing(kind, r[c]) && conv(r[c]).Some?
  {
    And(Not(MissingAt(kind, c)), ConvertsAt(conv, c))
  }

  /** Rows present but not convertible. */
  function Mistyped(kind: Kind, c: nat, conv: Converter): (p: Row -> bool)
    ensures forall r: Row :: p(r) <==> !(c < |r| && IsMissing(kind, r[c])) && !(c < |r| && conv(r[c]).Some?)
  {
    And(Not(MissingAt(kind, c)), Not(ConvertsAt(conv, c)))
  }

  /** The three groups the filters sort the rows into. */
  datatype Split = Split(kept: seq<Row>, missing: seq<Row>, mistyped: seq<Row>)

  /**
   The shared filter logic: first the rows are split on the missing-value
   test, then the present rows are split on convertibility. Each group keeps
   the original relative order, and together the groups hold every input row
   exactly once.
   */
  function Partition(rows: seq<Row>, kind: Kind, c: nat, conv: Converter): (s: Split)
    ensures s.kept == Filter(Usable(kind, c, conv), rows)
    ensures s.missing == Filter(MissingAt(kind, c), rows)
    ensures s.mistyped == Filter(Mistyped(kind, c, conv), rows)
    ensures |s.kept| + |s.missing| + |s.mistyped| == |rows|
  {
    var missing := MissingAt(kind, c);
    var converts := ConvertsAt(conv, c);
    var present := Filter(Not(missing), rows);
    FilterSplit(missing, rows);
    FilterSplit(converts, present);
    FilterFilter(Not(missing), converts, rows);
    FilterFilter(Not(missing), Not(converts), rows);
    Split(Filter(converts, present), Filter(missing, rows), Filter(Not(converts), present))
  }

  /**
   Each group of the partition is exactly the rows of its class, in original
   order, and the three groups together hold every input row exactly once.
   */
  lemma PartitionIsExact(rows: seq<Row>, kind: Kind, c: nat, conv: Converter)
    ensures var s := Partition(rows, kind, c, conv);
            && SelectsExactly(s.kept, rows, Usable(kind, c, conv))
            && SelectsExactly(s.missing, rows, MissingAt(kind, c))
            && SelectsExactly(s.mistyped, rows, Mistyped(kind, c, conv))
            && multiset(s.kept) + multiset(s.missing) + multiset(s.mistyped) == multiset(rows)
  {
    var s := Partition(rows, kind, c, conv);
    var missing := MissingAt(kind, c);
    var converts := ConvertsAt(conv, c);
    var present := Filter(Not(missing), rows);
    FilterSelectsExactly(Usable(kind, c, conv), rows);
    FilterSelectsExactly(missing, rows);
    FilterSelectsExactly(Mistyped(kind, c, conv), rows);
    FilterSplit(missing, rows);
    FilterSplit(converts, present);
    FilterFilter(Not(missing), converts, rows);
    FilterFilter(Not(missing), Not(converts), rows);
  }

  /**
   The two `where` selections on the missing-value test are complementary:
   each keeps its rows in order, and together they hold every row exactly
   once.
   */
  lemma MissingSelectionsComplementary(rows: seq<Row>, kind: Kind, c: nat)
    ensures SelectsExactly(Filter(Not(MissingAt(kind, c)), rows), rows, Not(MissingAt(kind, c)))
    ensures SelectsExactly(Filter(MissingAt(kind, c), rows), rows, MissingAt(kind, c))
    ensures multiset(Filter(Not(MissingAt(kind, c)), rows)) + multiset(Filter(MissingAt(kind, c), rows))
            == multiset(rows)
    ensures |Filter(Not(MissingAt(kind, c)), rows)| + |Filter(MissingAt(kind, c), rows)| == |rows|
  {
    FilterSelectsExactly(Not(MissingAt(kind, c)), rows);
    FilterSelectsExactly(MissingAt(kind, c), rows);
    FilterSplit(MissingAt(kind, c), rows);
  }

  /**
   The two `where` selections by `has_type` on the present rows (lines 39
   and 40): the first holds exactly the rows whose cell converts, the second
   exactly the rows whose conversion raises a value error, each in original
   order, and together they hold every present row exactly once.
   */
  lemma HasTypeSelections(present: seq<Row>, c: nat, conv: Converter)
    requires forall i :: 0 <= i < |present| ==> c < |present[i]|
    ensures SelectsExactly(Filter(ConvertsAt(conv, c), present), present, (r: Row) => c < |r| && conv(r[c]).Some?)
    ensures SelectsExactly(Filter(Not(ConvertsAt(conv, c)), present), present, (r: Row) => c < |r| && conv(r[c]) == None)
    ensures multiset(Filter(ConvertsAt(conv, c), present)) + multiset(Filter(Not(ConvertsAt(conv, c)), present))
            == multiset(present)
  {
    var converts := ConvertsAt(conv, c);
    forall x | x in present
      ensures c < |x|
    {
      var i :| 0 <= i < |present| && present[i] == x;
    }
    FilterSelectsExactly(converts, present);
    FilterSelectsExactly(Not(converts), present);
    SelectsExactlyAgree(Filter(converts, present), present, converts, (r: Row) => c < |r| && conv(r[c]).Some?);
    SelectsExactlyAgree(Filter(Not(converts), present), present, Not(converts), (r: Row) => c < |r| && conv(r[c]) == None);
    FilterSplit(converts, present);
  }

  /**
   The `apply` step: each row with its cell of column `c` replaced by the
   converted value, everything else as it was.
   */
  function ConvertAll(conv: Converter, c: nat, rows: seq<Row>): (out: seq<Row>)
    requires forall k :: 0 <= k < |rows| ==> c < |rows[k]| && conv(rows[k][c]).Some?
    ensures |out| == |rows|
    ensures forall k :: 0 <= k < |rows| ==>
              && |out[k]| == |rows[k]|
              && conv(rows[k][c]) == Some(out[k][c])
              && out[k] == rows[k][c := out[k][c]]
  {
    seq(|rows|, k requires 0 <= k < |rows| => rows[k][c := conv(rows[k][c]).value])
  }

  /** Every kept row of a well-formed table is aligned, present and convertible. */
  lemma KeptRowsUsable(t: Table, kind: Kind, c: nat, conv: Converter)
    requires WellFormed(t)
    ensures var kept := Partition(t.rows, kind, c, conv).kept;
            forall k :: 0 <= k < |kept| ==>
              && |kept[k]| == |t.columns|
              && c < |kept[k]|
              && !IsMissing(kind, kept[k][c])
              && conv(kept[k][c]).Some?
  {
    var kept := Filter(Usable(kind, c, conv), t.rows);
    FilterMultiset(Usable(kind, c, conv), t.rows);
    forall k | 0 <= k < |kept|
      ensures |kept[k]| == |t.columns| && c < |kept[k]| && !IsMissing(kind, kept[k][c]) && conv(kept[k][c]).Some?
    {
      assert Usable(kind, c, conv)(kept[k]);
      assert kept[k] in t.rows;
    }
  }

  /** The valid rows of a column, and how many rows were removed. */
  datatype Cleaned = Cleaned(table: Table, removed: nat)

  /**
   `valid_rows_for_column`: the rows whose cell in the named column is present
   and convertible, in their original order, with that cell converted; the
   column's storage kind is inferred afresh from the converted cells. The
   removed count is the number the source prints.
   */
  function ValidRowsForColumn(t: Table, name: string, conv: Converter): (r: Cleaned)
    requires WellFormed(t) && name in Labels(t.columns)
    ensures WellFormed(r.table)
    ensures var c := ColumnIndex(t.columns, name);
            var kind := t.columns[c].kind;
            var s := Partition(t.rows, kind, c, conv);
            && |r.table.rows| == |s.kept|
            && (forall k :: 0 <= k < |s.kept| ==>
                  var before, after := s.kept[k], r.table.rows[k];
                  && c < |before| && |after| == |before|
                  && !IsMissing(kind, before[c])
                  && conv(before[c]) == Some(after[c])
                  && after == before[c := after[c]])
            && r.removed == |s.missing| + |s.mistyped|
    ensures r.removed + |r.table.rows| == |t.rows|
    ensures Labels(r.table.columns) == Labels(t.columns)
    ensures var c := ColumnIndex(t.columns, name);
            && (forall j :: 0 <= j < |t.columns| && j != c ==> r.table.columns[j] == t.columns[j])
            && r.table.columns[c].kind == InferKind(ColumnValues(r.table.rows, c))
  {
    var c := ColumnIndex(t.columns, name);
    var kind := t.columns[c].kind;
    var s := Partition(t.rows, kind, c, conv);
    KeptRowsUsable(t, kind, c, conv);
    var rows := ConvertAll(conv, c, s.kept);
    assert Aligned(rows, |t.columns|);
    var converted := Table(t.columns, rows);
    Cleaned(WithKind(converted, c, InferKind(ColumnValues(rows, c))), |s.missing| + |s.mistyped|)
  }

  /**
   `bad_rows_for_column`: the rows whose cell is missing, followed by the
   present rows whose cell does not convert, each group in original order.
   The table's columns are unchanged.
   */
  function BadRowsForColumn(t: Table, name: string, conv: Converter): (b: Table)
    requires WellFormed(t) && name in Labels(t.columns)
    ensures WellFormed(b) && b.columns == t.columns
    ensures var c := ColumnIndex(t.columns, name);
            var kind := t.columns[c].kind;
            var s := Partition(t.rows, kind, c, conv);
            && b.rows == s.missing + s.mistyped
            && forall k :: 0 <= k < |b.rows| ==>
                 var row := b.rows[k];
                 && row in t.rows
                 && c < |row|
                 && (k < |s.missing| <==> IsMissing(kind, row[c]))
                 && (k >= |s.missing| ==> conv(row[c]) == None)
  {
    var c := ColumnIndex(t.columns, name);
    var kind := t.columns[c].kind;
    var s := Partition(t.rows, kind, c, conv);
    FilterMultiset(MissingAt(kind, c), t.rows);
    FilterMultiset(Mistyped(kind, c, conv), t.rows);
    Table(t.columns, s.missing + s.mistyped)
  }

  /**
   Count law: the valid rows and the bad rows together number the input
   rows, and the count reported by the valid-rows filter is the number of
   bad rows.
   */
  lemma CountLaw(t: Table, name: string, conv: Converter)
    requires WellFormed(t) && name in Labels(t.columns)
    ensures |ValidRowsForColumn(t, name, conv).table.rows| + |BadRowsForColumn(t, name, conv).rows| == |t.rows|
    ensures ValidRowsForColumn(t, name, conv).removed == |BadRowsForColumn(t, name, conv).rows|
  {
  }

  /**
   The valid rows, taken before conversion, and the bad rows are together a
   rearrangement of the input rows; the valid table's rows are exactly the
   usable rows, converted.
   */
  lemma ValidAndBadCoverInput(t: Table, name: string, conv: Converter)
    requires WellFormed(t) && name in Labels(t.columns)
    ensures var c := ColumnIndex(t.columns, name);
            var usable := Filter(Usable(t.columns[c].kind, c, conv), t.rows);
            var valid := ValidRowsForColumn(t, name, conv).table.rows;
            && multiset(usable) + multiset(BadRowsForColumn(t, name, conv).rows) == multiset(t.rows)
            && |valid| == |usable|
            && valid == ConvertAll(conv, c, usable)
  {
    var c := ColumnIndex(t.columns, name);
    var s := Partition(t.rows, t.columns[c].kind, c, conv);
    PartitionIsExact(t.rows, t.columns[c].kind, c, conv);
    assert multiset(s.missing + s.mistyped) == multiset(s.missing) + multiset(s.mistyped);
  }

  /**
   When every cell of the column is present and convertible, no row is
   removed and no row is reported bad.
   */
  lemma CleanColumnKeepsEveryRow(t: Table, name: string, conv: Converter)
    requires WellFormed(t) && name in Labels(t.columns)
    requires var c := ColumnIndex(t.columns, name);
             forall i :: 0 <= i < |t.rows| ==>
               !IsMissing(t.columns[c].kind, t.rows[i][c]) && conv(t.rows[i][c]).Some?
    ensures ValidRowsForColumn(t, name, conv).removed == 0
    ensures |ValidRowsForColumn(t, name, conv).table.rows| == |t.rows|
    ensures BadRowsForColumn(t, name, conv).rows == []
  {
    var c := ColumnIndex(t.columns, name);
    FilterAll(Usable(t.columns[c].kind, c, conv), t.rows);
  }

  /**
   `replace_value_in_column`: every cell of the named column equal to
   `original` becomes `replacement`; every other cell, the columns and the
   row count stay as they were.
   */
  function ReplaceValueInColumn(t: Table, name: string, original: Value, replacement: Value): (r: Table)
    requires WellFormed(t) && name in Labels(t.columns)
    ensures WellFormed(r) && r.columns == t.columns && |r.rows| == |t.rows|
    ensures var c := ColumnIndex(t.columns, name);
            forall i :: 0 <= i < |t.rows| ==>
              && (PyEq(t.rows[i][c], original) ==> r.rows[i][c] == replacement)
              && (!PyEq(t.rows[i][c], original) ==> r.rows[i][c] == t.rows[i][c])
              && forall j :: 0 <= j < |t.columns| && j != c ==> r.rows[i][j] == t.rows[i][j]
  {
    var c := ColumnIndex(t.columns, name);
    var col := ColumnValues(t.rows, c);
    var replaced := seq(|col|, i requires 0 <= i < |col| => if PyEq(col[i], original) then replacement else col[i]);
    WithColumn(t, c, replaced)
  }

  /** With no occurrence of `original` in the column, the table comes back unchanged. */
  lemma ReplaceAbsentIsIdentity(t: Table, name: string, original: Value, replacement: Value)
    requires WellFormed(t) && name in Labels(t.columns)
    requires var c := ColumnIndex(t.columns, name);
             forall i :: 0 <= i < |t.rows| ==> !PyEq(t.rows[i][c], original)
    ensures ReplaceValueInColumn(t, name, original, replacement) == t
  {
    var r := ReplaceValueInColumn(t, name, original, replacement);
    forall i | 0 <= i < |t.rows|
      ensures r.rows[i] == t.rows[i]
    {
    }
  }

  /** Not-a-number equals nothing, so replacing it changes nothing. */
  lemma ReplaceNaNIsNoOp(t: Table, name: string, replacement: Value)
    requires WellFormed(t) && name in Labels(t.columns)
    ensures ReplaceValueInColumn(t, name, FloatMissing, replacement) == t
  {
    ReplaceAbsentIsIdentity(t, name, FloatMissing, replacement);
  }

  /** Unless the replacement itself equals `original`, no occurrence of `original` survives. */
  lemma ReplaceLeavesNoOccurrence(t: Table, name: string, original: Value, replacement: Value)
    requires WellFormed(t) && name in Labels(t.columns)
    requires !PyEq(replacement, original)
    ensures var c := ColumnIndex(t.columns, name);
            var r := ReplaceValueInColumn(t, name, original, replacement);
            forall i :: 0 <= i < |r.rows| ==> !PyEq(r.rows[i][c], original)
  {
  }

  /** Replacing twice is replacing once. */
  lemma ReplaceIdempotent(t: Table, name: string, original: Value, replacement: Value)
    requires WellFormed(t) && name in Labels(t.columns)
    ensures var once := ReplaceValueInColumn(t, name, original, replacement);
            ReplaceValueInColumn(once, name, original, replacement) == once
  {
    var once := ReplaceValueInColumn(t, name, original, replacement);
    var twice := ReplaceValueInColumn(once, name, original, replacement);
    forall i | 0 <= i < |once.rows|
      ensures twice.rows[i] == once.rows[i]
    {
    }
  }
}
