/**
 Cell values of a table column, the storage kind of a column, value
 equality as the array library compares cells, the missing-value test and
 the convertibility predicate `has_type`.
 */
module Values {
  import opened Options

  /**
   A cell value. `Float` holds a finite floating-point number (only compared,
   never computed with); `FloatMissing` is the not-a-number marker that a
   floating-point column stores for an absent entry.
   */
  datatype Value = Str(text: string) | Int(n: int) | Float(x: real) | FloatMissing

  /** The storage kind of a column: 64-bit floating point, or anything else. */
  datatype Kind = Float64 | NonFloat

  /**
   The expected type passed by the caller, seen as its conversion:
   `Some(v')` when converting succeeds with `v'`, `None` when it raises a
   value error.
   */
  type Converter = Value -> Option<Value>

  /** True when `v` is a number that an array of kind `Float64` can hold. */
  predicate IsNumeric(v: Value) {
    v.Int? || v.Float? || v.FloatMissing?
  }

  /** The numeric value of an integer or float cell, as a real number. */
  function Num(v: Value): real
    requires v.Int? || v.Float?
  {
    if v.Int? then v.n as real else v.x
  }

  /**
   Cell equality `a == b` as the array library evaluates it: numbers compare
   by numeric value across integer and float, strings only equal identical
   strings, and not-a-number equals nothing, itself included.
   */
  function PyEq(a: Value, b: Value): (r: bool)
    ensures a.FloatMissing? || b.FloatMissing? ==> !r
    ensures a.Str? || b.Str? ==> (r <==> a == b)
    ensures a == b && !a.FloatMissing? ==> r
    ensures r ==> IsNumeric(a) == IsNumeric(b)
    ensures (a.Int? || a.Float?) && (b.Int? || b.Float?) ==> (r <==> Num(a) == Num(b))
  {
    match (a, b)
    case (Str(s), Str(t)) => s == t
    case (Int(i), Int(j)) => i == j
    case (Int(i), Float(y)) => i as real == y
    case (Float(x), Int(j)) => x == j as real
    case (Float(x), Float(y)) => x == y
    case _ => false
  }

  /**
   The missing-value test of a cell in a column of the given kind: the
   not-a-number marker in a floating-point column, the string "nan" in any
   other column.
   */
  function IsMissing(kind: Kind, v: Value): (m: bool)
    ensures kind == Float64 ==> (m <==> v == FloatMissing)
    ensures kind == NonFloat ==> (m <==> v == Str("nan"))
  {
    if kind == Float64 then v.FloatMissing? else PyEq(v, Str("nan"))
  }

  /**
   `has_type(T)`: a predicate telling whether a value converts to the
   expected type, true exactly when the conversion succeeds and false
   exactly when it fails with a value error.
   */
  function HasType(conv: Converter): (isA: Value -> bool)
    ensures forall v :: isA(v) <==> conv(v).Some?
    ensures forall v :: !isA(v) <==> conv(v) == None
  {
    v => conv(v).Some?
  }

  /**
   The storage kind the array library infers for a freshly built column:
   floating point when every value is a number and at least one is a float,
   and also for an empty column; any other mix is not floating point.
   */
  function InferKind(vs: seq<Value>): (k: Kind)
    ensures k == Float64 <==>
      && (forall i :: 0 <= i < |vs| ==> IsNumeric(vs[i]))
      && (|vs| == 0 || exists i :: 0 <= i < |vs| && !vs[i].Int?)
  {
    if (forall i :: 0 <= i < |vs| ==> IsNumeric(vs[i]))
       && (|vs| == 0 || exists i :: 0 <= i < |vs| && (vs[i].Float? || vs[i].FloatMissing?))
    then Float64
    else NonFloat
  }
}
