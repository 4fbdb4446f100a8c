/** The cell values the pages read from pandas frames and Snowflake rows, with
    the handful of Python operations applied to them: `str(v)`, `pd.isna(v)`,
    truthiness, `int(v)` and `==`. A float is kept by its Python `repr`
    ("2.5", "-0.0", "nan"); only decimal reprs are given a numeric meaning. */
module Cells {
  import opened Wrappers
  import opened Text

  datatype Value = VNull | VStr(s: string) | VInt(i: int) | VFloat(repr: string) | VBool(b: bool)

  /** A frame or table row: column name to cell. */
  type Row = map<string, Value>

  const NaN: Value := VFloat("nan")

  /** `pd.isna(v)`, and also the test `v is None or (isinstance(v, float) and pd.isna(v))`
      the SQL escapers use: None or a float NaN. */
  predicate IsNa(v: Value) {
    v == VNull || v == NaN
  }

  /** `row.get(c)`: a missing column reads as None. */
  function Get(r: Row, c: string): (v: Value)
    ensures c !in r ==> v == VNull
    ensures c in r ==> v == r[c]
  {
    if c in r then r[c] else VNull
  }

  /** `str(v)` (and `astype(str)` on an object column). */
  function PyStr(v: Value): string {
    match v
    case VNull => "None"
    case VStr(s) => s
    case VInt(i) => IntToString(i)
    case VFloat(r) => r
    case VBool(b) => if b then "True" else "False"
  }

  /** Index of the first '.' of a string, or its length. */
  function DotIndex(r: string): (k: nat)
    ensures k <= |r| && (k < |r| ==> r[k] == '.')
    ensures forall j :: 0 <= j < k ==> r[j] != '.'
  {
    if r == [] || r[0] == '.' then 0 else 1 + DotIndex(r[1..])
  }

  /** A float repr of the form `[-]digits.digits`. */
  predicate DecimalRepr(r: string) {
    var k := DotIndex(r);
    k < |r| && AllDigits(r[k + 1..]) &&
    (AllDigits(r[..k]) || (k >= 2 && r[0] == '-' && AllDigits(r[1..k])))
  }

  /** The integer part of a decimal float repr, i.e. `int(float)` truncating towards zero. */
  function TruncRepr(r: string): (t: Option<int>)
    ensures t.Some? ==> DecimalRepr(r)
  {
    if DecimalRepr(r) then ParseInt(r[..DotIndex(r)]) else None
  }

  /** `int(v)`; `None` where Python raises. Floats with an exponent repr are not given a value. */
  function PyInt(v: Value): (r: Option<int>)
    ensures v.VInt? ==> r == Some(v.i)
    ensures v.VNull? ==> r == None
  {
    match v
    case VNull => None
    case VStr(s) => ParseInt(s)
    case VInt(i) => Some(i)
    case VFloat(rp) => TruncRepr(rp)
    case VBool(b) => Some(if b then 1 else 0)
  }

  /** The integer a numeric cell equals, when it equals one (`1`, `True`, `1.0`). */
  function IntegralValue(v: Value): Option<int> {
    match v
    case VInt(i) => Some(i)
    case VBool(b) => Some(if b then 1 else 0)
    case VFloat(r) =>
      if |r| >= 3 && r[|r| - 2..] == ".0" then
        var p := r[..|r| - 2];
        if AllDigits(p) || (|p| >= 2 && p[0] == '-' && AllDigits(p[1..])) then ParseInt(p) else None
      else None
    case _ => None
  }

  predicate IsNumber(v: Value) {
    v.VInt? || v.VFloat? || v.VBool?
  }

  /** Python `a == b` on two cells. */
  predicate PyEq(a: Value, b: Value) {
    if a.VNull? || b.VNull? then a.VNull? && b.VNull?
    else if a.VStr? || b.VStr? then a.VStr? && b.VStr? && a.s == b.s
    else if IntegralValue(a).Some? && IntegralValue(b).Some? then IntegralValue(a) == IntegralValue(b)
    else a.VFloat? && b.VFloat? && a.repr == b.repr && a != NaN
  }

  /** `isinstance(v, (int, float)) and v == 0` (a `bool` is an `int` in Python). */
  predicate IsNumericZero(v: Value) {
    IsNumber(v) && PyEq(v, VInt(0))
  }

  /** `bool(v)` */
  predicate Truthy(v: Value) {
    match v
    case VNull => false
    case VStr(s) => s != ""
    case VBool(b) => b
    case _ => !IsNumericZero(v)
  }

  /** `astype("string")`: NA stays missing, everything else becomes `str(v)`. */
  function AsString(v: Value): (r: Option<string>)
    ensures r.None? <==> IsNa(v)
  {
    if IsNa(v) then None else Some(PyStr(v))
  }

  /** `astype("string").fillna("").str.strip()` */
  function CleanText(v: Value): (r: string)
    ensures IsNa(v) ==> r == ""
    ensures !IsNa(v) ==> r == Strip(PyStr(v))
  {
    match AsString(v)
    case None => ""
    case Some(s) => Strip(s)
  }

  lemma PyEqReflexive(v: Value)
    ensures PyEq(v, v) <==> v != NaN
  {
  }

  lemma PyEqSymmetric(a: Value, b: Value)
    ensures PyEq(a, b) <==> PyEq(b, a)
  {
  }

  /** Python `==` on cells is transitive. */
  lemma PyEqTransitive(a: Value, b: Value, c: Value)
    requires PyEq(a, b) && PyEq(b, c)
    ensures PyEq(a, c)
  {
  }

  /** NaN is the only cell that differs from itself, so it is never equal to anything. */
  lemma NaNNeverEqual(v: Value)
    ensures !PyEq(NaN, v) && !PyEq(v, NaN)
  {
  }

  /** `int(str(i)) == i` on cells: an integer read back from its text. */
  lemma PyIntOfPyStr(i: int)
    ensures PyInt(VStr(PyStr(VInt(i)))) == Some(i)
  {
    ParseIntToString(i);
  }

  // ---------------------------------------------------------------------------
  // Readings of a sequence of cells, stated for any reading so that the solver
  // need not unfold `int(...)`

  /** Some element reads as `x` iff one of the first elements does or the last one does. */
  lemma {:induction false} CarriesIdSnoc<T>(rows: seq<T>, id: T -> Option<int>, x: int)
    requires rows != []
    ensures var n := |rows| - 1;
      (exists j :: 0 <= j < |rows| && id(rows[j]) == Some(x)) <==>
      (exists j :: 0 <= j < n && id(rows[..n][j]) == Some(x)) || id(rows[n]) == Some(x)
  {
    var n := |rows| - 1;
    if exists j :: 0 <= j < |rows| && id(rows[j]) == Some(x) {
      var j :| 0 <= j < |rows| && id(rows[j]) == Some(x);
      if j < n {
        assert rows[..n][j] == rows[j];
      }
    }
    if exists j :: 0 <= j < n && id(rows[..n][j]) == Some(x) {
      var j :| 0 <= j < n && id(rows[..n][j]) == Some(x);
      assert rows[..n][j] == rows[j];
    }
  }

  /** Some element fails to read iff one of the first elements does or the last one does. */
  lemma FailsSnoc<T>(rows: seq<T>, id: T -> Option<int>)
    requires rows != []
    ensures var n := |rows| - 1;
      (exists j :: 0 <= j < |rows| && id(rows[j]).None?) <==>
      (exists j :: 0 <= j < n && id(rows[..n][j]).None?) || id(rows[n]).None?
  {
    var n := |rows| - 1;
    assert forall j :: 0 <= j < n ==> rows[..n][j] == rows[j];
  }

  /** No element after `j` reads as `x` when none among the first ones does and the last one does not. */
  lemma LaterMissSnoc<T>(rows: seq<T>, p: seq<T>, id: T -> Option<int>, j: int, x: int)
    requires rows != [] && p == rows[..|rows| - 1] && 0 <= j
    requires forall j2 :: j < j2 < |p| ==> id(p[j2]) != Some(x)
    requires id(rows[|rows| - 1]) != Some(x)
    ensures forall j2 :: j < j2 < |rows| ==> id(rows[j2]) != Some(x)
  {
    forall j2 | j < j2 < |rows| ensures id(rows[j2]) != Some(x) {
      if j2 < |p| {
        assert rows[j2] == p[j2];
      }
    }
  }
}
