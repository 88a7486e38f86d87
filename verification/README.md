# Table cleaner — a Dafny model

This project models `table_cleaner.py`, a handful of helpers for cleaning one
column of a data table in an introductory data-science setting:

- `has_type(T)` builds a predicate telling whether a value converts to the
  expected type `T`;
- `valid_rows_for_column` keeps the rows whose cell in a named column is
  present and convertible, converts those cells, and reports how many rows it
  removed;
- `bad_rows_for_column` returns the rows the previous function removes:
  first the rows with a missing cell, then the rows whose cell does not
  convert;
- `replace_value_in_column` replaces every occurrence of a value in one
  column.

The modules follow that structure:

- `Options` (`options.dfy`): the `Option` wrapper; `None` stands for a
  conversion that raises a value error.
- `Seqs` (`seqs.dfy`): `Filter`, the table engine's `where` over a sequence of
  rows, with an independent reference description `SelectsExactly` (an
  order-preserving subsequence holding exactly the selected elements with
  their multiplicities) and the laws used by the cleaner: selecting twice is
  selecting by the conjunction, and a predicate and its complement partition
  the input.
- `Values` (`values.dfy`): cell values (`Str`, `Int`, `Float`, and
  `FloatMissing` for the not-a-number marker), the storage kind of a column
  (`Float64` or `NonFloat`), cell equality as the array library evaluates
  `==` (`PyEq`), the missing-value test (`IsMissing`), the convertibility
  predicate (`HasType`) and the storage kind inferred for a freshly built
  column (`InferKind`).
- `Tables` (`tables.dfy`): a table is a list of labelled columns, each with
  a storage kind, and a sequence of rows aligned with them; column lookup by
  label, and replacing a column.
- `TableCleaner` (`table_cleaner.dfy`): the shared filter logic, written once
  as `Partition`, the two row filters as projections of it, value
  replacement, and the laws relating them.
- `CleanerExamples` (`cleaner_examples.dfy`): concrete tables for which
  lemmas prove the functions' results, and the counterexample to idempotence
  described below.

The expected type is a parameter `conv: Value -> Option<Value>`, the
conversion `T(v)` seen as a total function: `Some(v')` when it succeeds,
`None` when it raises a value error. The source converts each present cell
up to three times: in the `has_type` test that collects the unconvertible
rows (line 39), in the `has_type` test that keeps the convertible ones
(line 40), and, for a kept cell, in `apply` (line 44). Because `conv` is a
function, the model assumes all these calls agree; in particular the two
`has_type` tests give complementary answers, which is what makes the kept
and the unconvertible groups split the present rows exactly.

The storage kind of a column is a property of the column, not of its cells,
as in the array library: the missing-value test of a `Float64` column is
"the cell is not-a-number", of any other column "the cell equals the string
`"nan"`". After conversion the kind of the named column is inferred afresh
from the converted cells (floating point when all are numbers and one is a
float, and for an empty column). Because of this, keeping the valid rows is
not idempotent in general, although one might expect it to be: a text cell
`"NaN"` is not the marker `"nan"`, converts to a float not-a-number, and is
kept; the column is then floating point and a second pass removes it.
`CleanerExamples.ValidRowsNotIdempotent` proves this on a one-row table.

Well-formedness of a table (unique labels, every row as wide as the column
list) is an invariant of the table engine; the functions require it. Looking
up an absent label raises a key error in the source; here the label's
presence is a precondition.

## Model

| member | source | states |
|---|---|---|
| TableCleaner.HasTypeSelections | table_cleaner.py:7-16 | selecting the present rows by `has_type(T)` (as at lines 39 and 40) gives exactly the rows whose conversion succeeds, and by its negation exactly the rows whose conversion raises a value error, each in original order; together they are a rearrangement of the present rows |
| Values.IsMissing | table_cleaner.py:31-36 | in a floating-point column a cell is missing exactly when it is not-a-number; in any other column exactly when it is the string "nan" |
| Values.PyEq | table_cleaner.py:81 | cell equality as `col == original_value` evaluates it: not-a-number equals nothing, strings equal only identical strings, two integer or float cells are equal exactly when their numeric values are (so `1` equals `1.0` and `1` differs from `2`), and a string never equals a number |
| Tables.ColumnIndex | table_cleaner.py:31 | looking up a present label yields the position of the first (in a well-formed table the only) column with that label |
| Seqs.Filter | table_cleaner.py:32-36 | `where` keeps only rows satisfying the predicate and never grows the table |
| Seqs.FilterCharacterization | table_cleaner.py:32-36 | a sequence is the result of `where` exactly when it is an order-preserving subsequence of the input holding every selected row as often as the input does and nothing else |
| Seqs.FilterFilter | table_cleaner.py:39-40 | selecting the present rows and then the convertible ones is selecting the rows that are both |
| Seqs.FilterSplit | table_cleaner.py:32-33 | a predicate and its negation split the rows into two parts that together hold each row exactly once, so their sizes add up to the input size |
| TableCleaner.MissingSelectionsComplementary | table_cleaner.py:31-36 | the two `where` calls on the missing-value test are complementary: each is an exact order-preserving selection and together they hold every row exactly once |
| TableCleaner.Partition | table_cleaner.py:31-39 | the shared logic yields the present-and-convertible rows, the missing rows and the present-but-unconvertible rows, each the selection of its class, with sizes adding up to the input size |
| TableCleaner.PartitionIsExact | table_cleaner.py:63-71 | each of the three groups is an exact order-preserving selection of its class, and together the groups are a rearrangement of the input rows |
| TableCleaner.ConvertAll | table_cleaner.py:44 | `apply` of the expected type replaces each kept row's cell by its converted value and leaves the other cells alone |
| TableCleaner.ValidRowsForColumn | table_cleaner.py:19-49 | the result holds the kept rows of the partition in order, each with a present and convertible original cell now replaced by its conversion and every other cell unchanged; labels and other columns are unchanged, the column's kind is inferred from the converted cells, and the removed count is the number of missing plus unconvertible rows |
| TableCleaner.BadRowsForColumn | table_cleaner.py:52-73 | the result is the missing rows followed by the present-but-unconvertible rows, each an input row, the first group exactly those whose cell is missing and the second ones whose cell fails to convert; the columns are unchanged |
| TableCleaner.CountLaw | table_cleaner.py:39-47 | valid rows plus bad rows number the input rows, and the removed count reported by the valid-rows filter equals the number of bad rows |
| TableCleaner.ValidAndBadCoverInput | table_cleaner.py:63-73 | the usable rows (before conversion) and the bad rows are together a rearrangement of the input, and the valid table is those usable rows converted |
| TableCleaner.CleanColumnKeepsEveryRow | table_cleaner.py:38-44 | when every cell of the column is present and convertible, no row is removed and there are no bad rows |
| TableCleaner.ReplaceValueInColumn | table_cleaner.py:75-82 | every cell of the named column equal to the original value becomes the new value, every other cell of that column and every cell of other columns is unchanged, and the columns and row count are kept |
| TableCleaner.ReplaceAbsentIsIdentity | table_cleaner.py:80-82 | when the original value does not occur in the column, the table comes back equal to the input |
| TableCleaner.ReplaceNaNIsNoOp | table_cleaner.py:81 | replacing not-a-number changes nothing, since not-a-number equals no cell |
| TableCleaner.ReplaceLeavesNoOccurrence | table_cleaner.py:80-81 | unless the new value itself equals the original, no cell of the column equals the original afterwards |
| TableCleaner.ReplaceIdempotent | table_cleaner.py:80-82 | replacing twice gives the same table as replacing once, for every original and new value (including a new value equal to the original, such as 1 by 1.0) |
| CleanerExamples.AgeValidRows | table_cleaner.py:19-49 | the text column "12", "nan", "abc", "45" converted to integers keeps 12 and 45 and reports two removed rows |
| CleanerExamples.AgeBadRows | table_cleaner.py:52-73 | for the same table the bad rows are "nan" then "abc" |
| CleanerExamples.ScoreValidRows | table_cleaner.py:31-44 | the floating-point column 1.5, not-a-number, 3.0 keeps 1.5 and 3.0 and removes one row |
| CleanerExamples.StatusReplaced | table_cleaner.py:75-82 | replacing "active" by "A" in "active", "inactive", "active" gives "A", "inactive", "A" |
| CleanerExamples.ValidRowsNotIdempotent | table_cleaner.py:31-44 | a text cell "NaN" survives one pass as not-a-number in a column now floating point, and a second pass removes it |

## Left out

- The table engine itself (`where`, `append`, `with_column(s)`, `apply`,
  `column`): modelled directly as sequence selection, concatenation, a map
  over rows and column replacement, not as the library's code.
- Floating-point arithmetic and IEEE semantics: a float cell is a real
  number that is only compared, and not-a-number is the constructor
  `FloatMissing`; infinities are not modelled.
- The concrete conversion rules of `int`, `float`, `str`: the expected type
  is an uninterpreted total conversion parameter.
- Exceptions other than a value error raised by the conversion (a type error,
  an overflow error): they propagate in the source and are not modelled.
- The key error for an absent column label: a precondition instead.
- The diagnostic print of the removed-row count: the count is returned in
  `Cleaned.removed` instead.
- Values.InferKind: follows the array library's dtype inference only for the
  value shapes modelled here (text, integers, floats, not-a-number); booleans
  and object arrays are not modelled.
- TableCleaner.ReplaceValueInColumn: stores the new value as given; the array
  library's cast of the new value to the column's dtype on assignment (and
  the error it raises when that cast is impossible) is not modelled.
- TableCleaner.ConvertAll: each converted cell is the conversion's result
  verbatim. The array library coerces a column built from results of mixed
  shape (integers among floats become floats; numbers among text become
  text, a not-a-number among text becoming the string "nan"); this coercion
  is not modelled. The documented conversions `int`, `float` and `str` give
  results of one shape, where no coercion happens.
- TableCleaner.ValidRowsForColumn: the converted cell is stated to be the
  conversion's result verbatim, so it shares the coercion gap described for
  `ConvertAll`; the column's storage kind is inferred from those results.
- TableCleaner.ReplaceLeavesNoOccurrence: holds for the replacement stored
  as given. Because the cast of the new value to the column's dtype is not
  modelled, the cases where the cast maps the new value back onto the
  original (a too-long string truncated in a fixed-width text column, a
  float truncated in an integer column) are outside this lemma.
- In-place copying: tables are immutable values, so "works on a copy and
  leaves the input table untouched" holds by construction rather than as a
  stated contract.
