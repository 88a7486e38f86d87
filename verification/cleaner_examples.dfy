/**
 Worked scenarios for the cleaning functions on small concrete tables, and a
 counterexample showing that keeping the valid rows twice can remove more
 than keeping them once.
 */
module CleanerExamples {
  import opened Options
  import opened Seqs
  import opened Values
  import opened Tables
  import opened TableCleaner

  /** Agrees with integer conversion on the cells of the scenarios below. */
  function ToInt(v: Value): Option<Value> {
    match v
    case Str(s) => if s == "12" then Some(Int(12)) else if s == "45" then Some(Int(45)) else None
    case Int(i) => Some(Int(i))
    case _ => None
  }

  /** Agrees with float conversion on the cells of the scenarios below, including the text "NaN". */
  function ToFloat(v: Value): Option<Value> {
    match v
    case Str(s) => if s == "NaN" then Some(FloatMissing) else None
    case Int(i) => Some(Float(i as real))
    case Float(x) => Some(Float(x))
    case FloatMissing => Some(FloatMissing)
  }

  /** The selection of a single row. */
  function Keep(p: Row -> bool, x: Row): seq<Row> {
    if p(x) then [x] else []
  }

  /** Selection from a sequence with a known first element. */
  lemma FilterCons(p: Row -> bool, x: Row, s: seq<Row>)
    ensures Filter(p, [x] + s) == Keep(p, x) + Filter(p, s)
  {
    assert ([x] + s)[0] == x;
    assert ([x] + s)[1..] == s;
  }

  lemma Filter1(p: Row -> bool, a: Row)
    ensures Filter(p, [a]) == Keep(p, a)
  {
    FilterCons(p, a, []);
    assert [a] + [] == [a];
  }

  lemma Filter3(p: Row -> bool, a: Row, b: Row, c: Row)
    ensures Filter(p, [a, b, c]) == Keep(p, a) + Keep(p, b) + Keep(p, c)
  {
    Filter1(p, c);
    FilterCons(p, b, [c]);
    assert [b] + [c] == [b, c];
    FilterCons(p, a, [b, c]);
    assert [a] + [b, c] == [a, b, c];
  }

  lemma Filter4(p: Row -> bool, a: Row, b: Row, c: Row, d: Row)
    ensures Filter(p, [a, b, c, d]) == Keep(p, a) + Keep(p, b) + Keep(p, c) + Keep(p, d)
  {
    Filter3(p, b, c, d);
    FilterCons(p, a, [b, c, d]);
    assert [a] + [b, c, d] == [a, b, c, d];
  }

  // ---------------------------------------------------------------------------
  // A text column "age" holding "12", "nan", "abc", "45", converted to integers.

  function AgeTable(): Table {
    Table([Column("age", NonFloat)], [[Str("12")], [Str("nan")], [Str("abc")], [Str("45")]])
  }

  lemma AgeWellFormed()
    ensures WellFormed(AgeTable()) && "age" in Labels(AgeTable().columns)
    ensures ColumnIndex(AgeTable().columns, "age") == 0
  {
    assert Labels(AgeTable().columns) == ["age"];
  }

  /** The cell-level facts of the scenario: which texts are the marker "nan", which convert. */
  lemma AgeCells()
    ensures !IsMissing(NonFloat, Str("12")) && ToInt(Str("12")) == Some(Int(12))
    ensures IsMissing(NonFloat, Str("nan"))
    ensures !IsMissing(NonFloat, Str("abc")) && ToInt(Str("abc")) == None
    ensures !IsMissing(NonFloat, Str("45")) && ToInt(Str("45")) == Some(Int(45))
  {
    assert "12"[0] != "nan"[0] && "12"[0] != "45"[0];
    assert "abc"[0] != "nan"[0] && "abc"[0] != "12"[0] && "abc"[0] != "45"[0];
    assert "45"[0] != "nan"[0] && "45"[0] != "12"[0];
  }

  lemma AgeKept()
    ensures Filter(Usable(NonFloat, 0, ToInt), AgeTable().rows) == [[Str("12")], [Str("45")]]
  {
    AgeCells();
    Filter4(Usable(NonFloat, 0, ToInt), [Str("12")], [Str("nan")], [Str("abc")], [Str("45")]);
  }

  lemma AgeMissing()
    ensures Filter(MissingAt(NonFloat, 0), AgeTable().rows) == [[Str("nan")]]
  {
    AgeCells();
    Filter4(MissingAt(NonFloat, 0), [Str("12")], [Str("nan")], [Str("abc")], [Str("45")]);
  }

  lemma AgeMistyped()
    ensures Filter(Mistyped(NonFloat, 0, ToInt), AgeTable().rows) == [[Str("abc")]]
  {
    AgeCells();
    Filter4(Mistyped(NonFloat, 0, ToInt), [Str("12")], [Str("nan")], [Str("abc")], [Str("45")]);
  }

  lemma AgeConverted()
    ensures ConvertAll(ToInt, 0, [[Str("12")], [Str("45")]]) == [[Int(12)], [Int(45)]]
  {
    var out := ConvertAll(ToInt, 0, [[Str("12")], [Str("45")]]);
    AgeCells();
    assert out[0] == [Int(12)];
    assert out[1] == [Int(45)];
  }

  /** The valid rows are 12 and 45, and two rows are reported removed. */
  lemma AgeValidRows()
    ensures WellFormed(AgeTable()) && "age" in Labels(AgeTable().columns)
    ensures ValidRowsForColumn(AgeTable(), "age", ToInt).table.rows == [[Int(12)], [Int(45)]]
    ensures ValidRowsForColumn(AgeTable(), "age", ToInt).removed == 2
  {
    AgeWellFormed();
    AgeKept();
    AgeMissing();
    AgeMistyped();
    ValidAndBadCoverInput(AgeTable(), "age", ToInt);
    AgeConverted();
  }

  /** The bad rows are "nan" (missing) and then "abc" (not an integer). */
  lemma AgeBadRows()
    ensures WellFormed(AgeTable()) && "age" in Labels(AgeTable().columns)
    ensures BadRowsForColumn(AgeTable(), "age", ToInt).rows == [[Str("nan")], [Str("abc")]]
  {
    AgeWellFormed();
    AgeMissing();
    AgeMistyped();
  }

  // ---------------------------------------------------------------------------
  // A floating-point column "score" holding 1.5, not-a-number, 3.0.

  function ScoreTable(): Table {
    Table([Column("score", Float64)], [[Float(1.5)], [FloatMissing], [Float(3.0)]])
  }

  lemma ScoreWellFormed()
    ensures WellFormed(ScoreTable()) && "score" in Labels(ScoreTable().columns)
    ensures ColumnIndex(ScoreTable().columns, "score") == 0
  {
    assert Labels(ScoreTable().columns) == ["score"];
  }

  lemma ScoreKept()
    ensures Filter(Usable(Float64, 0, ToFloat), ScoreTable().rows) == [[Float(1.5)], [Float(3.0)]]
  {
    var usable := Usable(Float64, 0, ToFloat);
    Filter3(usable, [Float(1.5)], [FloatMissing], [Float(3.0)]);
    assert usable([Float(1.5)]);
    assert !usable([FloatMissing]);
    assert usable([Float(3.0)]);
  }

  lemma ScoreConverted()
    ensures ConvertAll(ToFloat, 0, [[Float(1.5)], [Float(3.0)]]) == [[Float(1.5)], [Float(3.0)]]
  {
    var out := ConvertAll(ToFloat, 0, [[Float(1.5)], [Float(3.0)]]);
    assert out[0] == [Float(1.5)];
    assert out[1] == [Float(3.0)];
  }

  /** The valid rows are 1.5 and 3.0; the not-a-number row is removed. */
  lemma ScoreValidRows()
    ensures WellFormed(ScoreTable()) && "score" in Labels(ScoreTable().columns)
    ensures ValidRowsForColumn(ScoreTable(), "score", ToFloat).table.rows == [[Float(1.5)], [Float(3.0)]]
    ensures ValidRowsForColumn(ScoreTable(), "score", ToFloat).removed == 1
  {
    ScoreWellFormed();
    ScoreKept();
    ValidAndBadCoverInput(ScoreTable(), "score", ToFloat);
    ScoreConverted();
  }

  // ---------------------------------------------------------------------------
  // A text column "status" holding "active", "inactive", "active".

  function StatusTable(): Table {
    Table([Column("status", NonFloat)], [[Str("active")], [Str("inactive")], [Str("active")]])
  }

  /** Replacing "active" by "A" rewrites both occurrences and leaves "inactive". */
  lemma StatusReplaced()
    ensures WellFormed(StatusTable()) && "status" in Labels(StatusTable().columns)
    ensures ReplaceValueInColumn(StatusTable(), "status", Str("active"), Str("A")).rows
            == [[Str("A")], [Str("inactive")], [Str("A")]]
  {
    var t := StatusTable();
    assert Labels(t.columns) == ["status"];
    assert ColumnIndex(t.columns, "status") == 0;
    var r := ReplaceValueInColumn(t, "status", Str("active"), Str("A"));
    assert r.rows[0] == [Str("A")];
    assert r.rows[1] == [Str("inactive")];
    assert r.rows[2] == [Str("A")];
  }

  // ---------------------------------------------------------------------------
  // A text column "x" holding the text "NaN", converted to floats twice.

  function NaNTextTable(): Table {
    Table([Column("x", NonFloat)], [[Str("NaN")]])
  }

  lemma NaNTextWellFormed()
    ensures WellFormed(NaNTextTable()) && "x" in Labels(NaNTextTable().columns)
    ensures ColumnIndex(NaNTextTable().columns, "x") == 0
  {
    assert Labels(NaNTextTable().columns) == ["x"];
  }

  lemma NaNTextKept()
    ensures Filter(Usable(NonFloat, 0, ToFloat), NaNTextTable().rows) == [[Str("NaN")]]
  {
    var usable := Usable(NonFloat, 0, ToFloat);
    Filter1(usable, [Str("NaN")]);
    assert usable([Str("NaN")]);
  }

  lemma NaNTextConverted()
    ensures ConvertAll(ToFloat, 0, [[Str("NaN")]]) == [[FloatMissing]]
  {
    var out := ConvertAll(ToFloat, 0, [[Str("NaN")]]);
    assert out[0] == [FloatMissing];
  }

  lemma NaNTextFirstPassRows()
    ensures WellFormed(NaNTextTable()) && "x" in Labels(NaNTextTable().columns)
    ensures ValidRowsForColumn(NaNTextTable(), "x", ToFloat).table.rows == [[FloatMissing]]
  {
    NaNTextWellFormed();
    NaNTextKept();
    ValidAndBadCoverInput(NaNTextTable(), "x", ToFloat);
    NaNTextConverted();
  }

  /** The first pass keeps "NaN", converted to not-a-number, in a column now inferred floating point. */
  lemma NaNTextFirstPass()
    ensures WellFormed(NaNTextTable()) && "x" in Labels(NaNTextTable().columns)
    ensures ValidRowsForColumn(NaNTextTable(), "x", ToFloat).table == Table([Column("x", Float64)], [[FloatMissing]])
  {
    NaNTextFirstPassRows();
    var once := ValidRowsForColumn(NaNTextTable(), "x", ToFloat).table;
    assert ColumnValues(once.rows, 0) == [FloatMissing];
    assert |once.columns| == 1 && once.columns[0].name == "x";
  }

  /**
   Keeping the valid rows is not idempotent: in a text column the cell "NaN"
   is not the missing marker "nan" and converts to a float, so the first
   pass keeps it as not-a-number; the column is then floating point, and a
   second pass removes that row as missing.
   */
  lemma ValidRowsNotIdempotent()
    ensures WellFormed(NaNTextTable()) && "x" in Labels(NaNTextTable().columns)
    ensures var once := ValidRowsForColumn(NaNTextTable(), "x", ToFloat);
            && |once.table.rows| == 1
            && "x" in Labels(once.table.columns)
            && ValidRowsForColumn(once.table, "x", ToFloat).table.rows == []
            && ValidRowsForColumn(once.table, "x", ToFloat).removed == 1
  {
    NaNTextFirstPass();
    var once := Table([Column("x", Float64)], [[FloatMissing]]);
    assert Labels(once.columns) == ["x"];
    assert ColumnIndex(once.columns, "x") == 0;
    var usable := Usable(Float64, 0, ToFloat);
    Filter1(usable, [FloatMissing]);
    assert !usable([FloatMissing]);
  }
}
