/** The effect of the app's SQL statements on the Snowflake tables, one session
    at a time. A table is its column list and its rows in storage order; nothing
    enforces the ID primary key, so an INSERT always appends. */
module Store {
  import opened Wrappers
  import opened Cells

  datatype Table = Table(cols: seq<string>, rows: seq<Row>)

  /** The signed-in user as the session holds it; a missing entry is `VNull`. */
  datatype Actor = Actor(username: Value, name: Value)

  /** Tables by fully qualified name. */
  type Tables = map<string, Table>

  /** A value in a SELECT list or a SET clause, evaluated against one row. */
  datatype Expr =
    | Col(name: string)                   // a column of the row
    | Lit(v: Value)                       // a literal, or CURRENT_TIMESTAMP() supplied by the caller
    | CaseId(whens: seq<(int, Value)>)    // CASE ID WHEN i THEN v ... END (NULL when no arm fits)

  /** `WHERE col IN (v, ...)`; `WHERE col = v` is the one-element list. */
  datatype Where = ColIn(col: string, vals: seq<Value>)

  datatype Stmt =
    | InsertSelect(target: string, cols: seq<string>, source: string, select: seq<Expr>, where: Where)
    | InsertSelectAll(target: string, source: string, where: Where)
    | InsertValues(target: string, cols: seq<string>, values: seq<seq<Value>>)
    | Update(table: string, sets: seq<(string, Expr)>, where: Where)
    | Delete(table: string, where: Where)
    | Rejected(table: string)   // a statement whose text SQL cannot parse (a literal such as `inf`)

  /** SQL `=`: NULL equals nothing. */
  predicate SqlEq(a: Value, b: Value) {
    !IsNa(a) && !IsNa(b) && PyEq(a, b)
  }

  predicate AnyEq(x: Value, vals: seq<Value>)
    decreases |vals|
  {
    vals != [] && (SqlEq(x, vals[0]) || AnyEq(x, vals[1..]))
  }

  lemma {:induction false} AnyEqIff(x: Value, vals: seq<Value>)
    ensures AnyEq(x, vals) <==> exists k :: 0 <= k < |vals| && SqlEq(x, vals[k])
    decreases |vals|
  {
    if vals != [] {
      AnyEqIff(x, vals[1..]);
      if exists k :: 0 <= k < |vals[1..]| && SqlEq(x, vals[1..][k]) {
        var k :| 0 <= k < |vals[1..]| && SqlEq(x, vals[1..][k]);
        assert vals[k + 1] == vals[1..][k];
      }
      if exists k :: 0 <= k < |vals| && SqlEq(x, vals[k]) {
        var k :| 0 <= k < |vals| && SqlEq(x, vals[k]);
        if k > 0 { assert vals[1..][k - 1] == vals[k]; }
      }
    }
  }

  predicate Holds(w: Where, r: Row) {
    AnyEq(Get(r, w.col), w.vals)
  }

  /** The ID list of `WHERE ID IN (...)`. */
  function IdValues(ids: seq<int>): (vs: seq<Value>)
    ensures |vs| == |ids| && forall k :: 0 <= k < |ids| ==> vs[k] == VInt(ids[k])
  {
    seq(|ids|, k requires 0 <= k < |ids| => VInt(ids[k]))
  }

  function IdIn(ids: seq<int>): Where {
    ColIn("ID", IdValues(ids))
  }

  /** A row whose ID cell is one of `ids`. */
  predicate Selected(r: Row, ids: seq<int>) {
    Holds(IdIn(ids), r)
  }

  lemma SelectedIff(r: Row, ids: seq<int>)
    ensures Selected(r, ids) <==> exists k :: 0 <= k < |ids| && SqlEq(Get(r, "ID"), VInt(ids[k]))
  {
    AnyEqIff(Get(r, "ID"), IdValues(ids));
  }

  /** The value of the first `WHEN` arm whose ID equals the row's. */
  function CaseValue(id: Value, whens: seq<(int, Value)>): Value
    decreases |whens|
  {
    if whens == [] then VNull
    else if SqlEq(id, VInt(whens[0].0)) then whens[0].1
    else CaseValue(id, whens[1..])
  }

  function Eval(e: Expr, r: Row): Value {
    match e
    case Col(c) => Get(r, c)
    case Lit(v) => v
    case CaseId(whens) => CaseValue(Get(r, "ID"), whens)
  }

  /** The columns an expression reads. */
  predicate Reads(e: Expr, cols: seq<string>) {
    match e
    case Col(c) => c in cols
    case Lit(_) => true
    case CaseId(_) => "ID" in cols
  }

  predicate AllIn(cs: seq<string>, cols: seq<string>) {
    forall c :: c in cs ==> c in cols
  }

  /** A row of `targetCols`, with `vals` in the listed columns and NULL elsewhere. */
  function NewRow(targetCols: seq<string>, cols: seq<string>, vals: seq<Value>): (r: Row)
    requires |cols| == |vals|
    ensures r.Keys == set c | c in targetCols
  {
    map c | c in targetCols :: ListedValue(c, cols, vals)
  }

  function ListedValue(c: string, cols: seq<string>, vals: seq<Value>): Value
    requires |cols| == |vals|
    decreases |cols|
  {
    if cols == [] then VNull
    else if cols[0] == c then vals[0]
    else ListedValue(c, cols[1..], vals[1..])
  }

  function Filter(rows: seq<Row>, w: Where, keep: bool): (r: seq<Row>)
    ensures |r| <= |rows|
    decreases |rows|
  {
    if rows == [] then []
    else (if Holds(w, rows[0]) == keep then [rows[0]] else []) + Filter(rows[1..], w, keep)
  }

  /** The rows of `rows` that `w` selects, in order. */
  function Matching(rows: seq<Row>, w: Where): seq<Row> {
    Filter(rows, w, true)
  }

  /** The rows of `rows` that `w` does not select, in order: what DELETE leaves. */
  function Remaining(rows: seq<Row>, w: Where): seq<Row> {
    Filter(rows, w, false)
  }

  /** The rows an INSERT ... SELECT appends. */
  function Projected(src: seq<Row>, targetCols: seq<string>, cols: seq<string>, select: seq<Expr>): (r: seq<Row>)
    requires |cols| == |select|
    ensures |r| == |src|
  {
    seq(|src|, i requires 0 <= i < |src| =>
      NewRow(targetCols, cols, seq(|select|, k requires 0 <= k < |select| => Eval(select[k], src[i]))))
  }

  /** The rows an `INSERT INTO t SELECT *` appends: taken over by position. */
  function Positional(src: seq<Row>, targetCols: seq<string>, srcCols: seq<string>): (r: seq<Row>)
    requires |targetCols| == |srcCols|
    ensures |r| == |src|
  {
    seq(|src|, i requires 0 <= i < |src| =>
      NewRow(targetCols, targetCols, seq(|srcCols|, k requires 0 <= k < |srcCols| => Get(src[i], srcCols[k]))))
  }

  /** One SET list applied to one row; every expression sees the row as it was. */
  function Assign(r: Row, sets: seq<(string, Expr)>, base: Row): Row
    decreases |sets|
  {
    if sets == [] then r
    else Assign(r[sets[0].0 := Eval(sets[0].1, base)], sets[1..], base)
  }

  function Updated(rows: seq<Row>, sets: seq<(string, Expr)>, w: Where): (r: seq<Row>)
    ensures |r| == |rows|
  {
    seq(|rows|, i requires 0 <= i < |rows| => if Holds(w, rows[i]) then Assign(rows[i], sets, rows[i]) else rows[i])
  }

  function Append(t: Table, extra: seq<Row>): Table {
    Table(t.cols, t.rows + extra)
  }

  predicate ValuesFit(cols: seq<string>, values: seq<seq<Value>>) {
    forall i :: 0 <= i < |values| ==> |values[i]| == |cols|
  }

  /** Every SET target is a column of the table and every expression reads only its columns. */
  predicate SetsFit(sets: seq<(string, Expr)>, cols: seq<string>) {
    forall k :: 0 <= k < |sets| ==> sets[k].0 in cols && Reads(sets[k].1, cols)
  }

  predicate SelectFits(select: seq<Expr>, cols: seq<string>) {
    forall e :: e in select ==> Reads(e, cols)
  }

  function InsertSelectEffect(t: Table, cols: seq<string>, src: Table, select: seq<Expr>, w: Where): Result<Table> {
    if cols == [] then Err("syntax error: empty column list")
    else if |cols| != |select| || !AllIn(cols, t.cols) then Err("invalid target column")
    else if !SelectFits(select, src.cols) || w.col !in src.cols then Err("invalid source column")
    else Ok(Append(t, Projected(Matching(src.rows, w), t.cols, cols, select)))
  }

  function InsertSelectAllEffect(t: Table, src: Table, w: Where): Result<Table> {
    if |t.cols| != |src.cols| || w.col !in src.cols then Err("column count mismatch")
    else Ok(Append(t, Positional(Matching(src.rows, w), t.cols, src.cols)))
  }

  function InsertValuesEffect(t: Table, cols: seq<string>, values: seq<seq<Value>>): Result<Table> {
    if cols == [] || values == [] then Err("syntax error: empty insert")
    else if !AllIn(cols, t.cols) || !ValuesFit(cols, values) then Err("invalid insert")
    else Ok(Append(t, seq(|values|, i requires 0 <= i < |values| => NewRow(t.cols, cols, values[i]))))
  }

  function UpdateEffect(t: Table, sets: seq<(string, Expr)>, w: Where): Result<Table> {
    if sets == [] then Err("syntax error: empty SET list")
    else if !SetsFit(sets, t.cols) || w.col !in t.cols then Err("invalid column")
    else Ok(Table(t.cols, Updated(t.rows, sets, w)))
  }

  function DeleteEffect(t: Table, w: Where): Result<Table> {
    if w.col !in t.cols then Err("invalid column")
    else Ok(Table(t.cols, Remaining(t.rows, w)))
  }

  /** The new contents of the table a statement writes. */
  function Effect(db: Tables, s: Stmt): Result<Table> {
    match s
    case InsertSelect(target, cols, source, select, w) =>
      if target !in db || source !in db then Err("table does not exist")
      else InsertSelectEffect(db[target], cols, db[source], select, w)
    case InsertSelectAll(target, source, w) =>
      if target !in db || source !in db then Err("table does not exist")
      else InsertSelectAllEffect(db[target], db[source], w)
    case InsertValues(target, cols, values) =>
      if target !in db then Err("table does not exist")
      else InsertValuesEffect(db[target], cols, values)
    case Update(table, sets, w) =>
      if table !in db then Err("table does not exist")
      else UpdateEffect(db[table], sets, w)
    case Delete(table, w) =>
      if table !in db then Err("table does not exist")
      else DeleteEffect(db[table], w)
    case Rejected(_) => Err("SQL compilation error")
  }

  /** One statement. A missing table or column, or ill-shaped VALUES, is an SQL error. */
  function Exec(db: Tables, s: Stmt): Result<Tables> {
    match Effect(db, s)
    case Ok(t) => Ok(db[Writes(s) := t])
    case Err(e) => Err(e)
  }

  /** The tables a statement writes. */
  function Writes(s: Stmt): string {
    match s
    case InsertSelect(t, _, _, _, _) => t
    case InsertSelectAll(t, _, _) => t
    case InsertValues(t, _, _) => t
    case Update(t, _, _) => t
    case Delete(t, _) => t
    case Rejected(t) => t
  }

  /** A statement changes only the table it writes, and never a table's columns. */
  lemma ExecFrame(db: Tables, s: Stmt)
    requires Exec(db, s).Ok?
    ensures Exec(db, s).value.Keys == db.Keys
    ensures forall n :: n in db && n != Writes(s) ==> Exec(db, s).value[n] == db[n]
    ensures Exec(db, s).value[Writes(s)].cols == db[Writes(s)].cols
  {
  }

  /** Statements in order; the first error stops the run. */
  function RunAll(db: Tables, stmts: seq<Stmt>): Result<Tables>
    decreases |stmts|
  {
    if stmts == [] then Ok(db)
    else match Exec(db, stmts[0])
      case Ok(db1) => RunAll(db1, stmts[1..])
      case Err(e) => Err(e)
  }

  lemma {:induction false} RunAllSnoc(db: Tables, stmts: seq<Stmt>, s: Stmt)
    ensures RunAll(db, stmts + [s]) ==
      match RunAll(db, stmts) case Ok(db1) => Exec(db1, s) case Err(e) => Err(e)
    decreases |stmts|
  {
    if stmts == [] {
      assert [s][1..] == [];
    } else {
      assert (stmts + [s])[1..] == stmts[1..] + [s];
      match Exec(db, stmts[0]) {
        case Ok(db1) => RunAllSnoc(db1, stmts[1..], s);
        case Err(_) =>
      }
    }
  }

  lemma {:induction false} RunAllAppend(db: Tables, a: seq<Stmt>, b: seq<Stmt>)
    ensures RunAll(db, a + b) == match RunAll(db, a) case Ok(db1) => RunAll(db1, b) case Err(e) => Err(e)
    decreases |a|
  {
    if a == [] {
      assert a + b == b;
    } else {
      assert (a + b)[0] == a[0];
      assert (a + b)[1..] == a[1..] + b;
      match Exec(db, a[0]) {
        case Ok(db1) => RunAllAppend(db1, a[1..], b);
        case Err(_) =>
      }
    }
  }

  lemma RunAllOne(db: Tables, s: Stmt)
    ensures RunAll(db, [s]) == Exec(db, s)
  {
    assert [s][1..] == [];
  }

  lemma RunAllTwo(db: Tables, a: Stmt, b: Stmt)
    ensures RunAll(db, [a, b]) == match Exec(db, a) case Ok(db1) => Exec(db1, b) case Err(e) => Err(e)
  {
    RunAllSnoc(db, [a], b);
    assert [a] + [b] == [a, b];
    assert [a][1..] == [];
  }

  // ---------------------------------------------------------------------------
  // SET lists

  function SetCols(sets: seq<(string, Expr)>): (cs: seq<string>)
    ensures |cs| == |sets| && forall k :: 0 <= k < |sets| ==> cs[k] == sets[k].0
  {
    seq(|sets|, k requires 0 <= k < |sets| => sets[k].0)
  }

  /** A column the SET list names holds the value of its last assignment; any other keeps its value. */
  lemma {:induction false} AssignGet(r: Row, sets: seq<(string, Expr)>, base: Row, c: string)
    ensures c !in SetCols(sets) ==> Get(Assign(r, sets, base), c) == Get(r, c)
    ensures forall k :: 0 <= k < |sets| && sets[k].0 == c && (forall j :: k < j < |sets| ==> sets[j].0 != c) ==>
      Get(Assign(r, sets, base), c) == Eval(sets[k].1, base)
    decreases |sets|
  {
    if sets != [] {
      var r1 := r[sets[0].0 := Eval(sets[0].1, base)];
      AssignGet(r1, sets[1..], base, c);
      assert forall k :: 1 <= k < |sets| ==> sets[1..][k - 1] == sets[k];
      if c !in SetCols(sets[1..]) {
        assert forall j :: 1 <= j < |sets| ==> sets[j].0 != c by {
          forall j | 1 <= j < |sets| ensures sets[j].0 != c {
            assert SetCols(sets[1..])[j - 1] == sets[j].0;
          }
        }
      } else {
        var j :| 0 <= j < |SetCols(sets[1..])| && SetCols(sets[1..])[j] == c;
        assert sets[j + 1].0 == c;
      }
    }
  }

  /** The last assignment to a column decides its value. */
  lemma AssignAt(r: Row, sets: seq<(string, Expr)>, base: Row, k: nat)
    requires k < |sets| && forall j :: k < j < |sets| ==> sets[j].0 != sets[k].0
    ensures Get(Assign(r, sets, base), sets[k].0) == Eval(sets[k].1, base)
  {
    AssignGet(r, sets, base, sets[k].0);
  }

  // ---------------------------------------------------------------------------
  // Filtering facts

  lemma {:induction false} FilterSplit(rows: seq<Row>, w: Where)
    ensures |Matching(rows, w)| + |Remaining(rows, w)| == |rows|
    ensures multiset(Matching(rows, w)) + multiset(Remaining(rows, w)) == multiset(rows)
    decreases |rows|
  {
    if rows != [] {
      FilterSplit(rows[1..], w);
      assert rows == [rows[0]] + rows[1..];
    }
  }

  lemma {:induction false} FilterMember(rows: seq<Row>, w: Where, keep: bool, r: Row)
    ensures r in Filter(rows, w, keep) <==> r in rows && Holds(w, r) == keep
    decreases |rows|
  {
    if rows != [] {
      FilterMember(rows[1..], w, keep, r);
      assert rows == [rows[0]] + rows[1..];
    }
  }

  lemma {:induction false} FilterNone(rows: seq<Row>, w: Where)
    requires forall r :: r in rows ==> !Holds(w, r)
    ensures Remaining(rows, w) == rows && Matching(rows, w) == []
    decreases |rows|
  {
    if rows != [] {
      FilterNone(rows[1..], w);
      assert rows == [rows[0]] + rows[1..];
    }
  }

  lemma {:induction false} FilterAppend(a: seq<Row>, b: seq<Row>, w: Where, keep: bool)
    ensures Filter(a + b, w, keep) == Filter(a, w, keep) + Filter(b, w, keep)
    decreases |a|
  {
    if a == [] {
      assert a + b == b;
    } else {
      assert (a + b)[1..] == a[1..] + b;
      FilterAppend(a[1..], b, w, keep);
      var h := if Holds(w, a[0]) == keep then [a[0]] else [];
      assert Filter(a + b, w, keep) == h + Filter(a[1..] + b, w, keep);
      assert h + (Filter(a[1..], w, keep) + Filter(b, w, keep)) == (h + Filter(a[1..], w, keep)) + Filter(b, w, keep);
    }
  }

  /** A selected row has a place among the selected rows. */
  lemma MatchingIndex(rows: seq<Row>, ids: seq<int>, j: nat) returns (i: nat)
    requires j < |rows| && Selected(rows[j], ids)
    ensures i < |Matching(rows, IdIn(ids))| && Matching(rows, IdIn(ids))[i] == rows[j]
  {
    assert rows[j] in rows;
    FilterMember(rows, IdIn(ids), true, rows[j]);
    i :| 0 <= i < |Matching(rows, IdIn(ids))| && Matching(rows, IdIn(ids))[i] == rows[j];
  }

  /** The value listed for the `k`-th column, when no earlier column has its name. */
  lemma {:induction false} ListedValueAt(cols: seq<string>, vals: seq<Value>, k: nat)
    requires |cols| == |vals| && k < |cols|
    requires forall j :: 0 <= j < k ==> cols[j] != cols[k]
    ensures ListedValue(cols[k], cols, vals) == vals[k]
  {
    if k > 0 {
      ListedValueAt(cols[1..], vals[1..], k - 1);
    }
  }

  /** Two conditions that agree on every row select the same rows. */
  lemma {:induction false} FilterSame(rows: seq<Row>, w1: Where, w2: Where, keep: bool)
    requires forall r :: r in rows ==> (Holds(w1, r) <==> Holds(w2, r))
    ensures Filter(rows, w1, keep) == Filter(rows, w2, keep)
    decreases |rows|
  {
    if rows != [] {
      assert rows[0] in rows;
      assert forall r :: r in rows[1..] ==> r in rows;
      FilterSame(rows[1..], w1, w2, keep);
    }
  }

  /** An UPDATE leaves every row's value in a column its SET list does not name. */
  lemma UpdatedKeeps(rows: seq<Row>, sets: seq<(string, Expr)>, w: Where, k: nat, c: string)
    requires k < |rows| && c !in SetCols(sets)
    ensures Get(Updated(rows, sets, w)[k], c) == Get(rows[k], c)
  {
    AssignGet(rows[k], sets, rows[k], c);
  }

  /** ... and update the same rows. */
  lemma UpdatedSame(rows: seq<Row>, sets: seq<(string, Expr)>, w1: Where, w2: Where)
    requires forall r :: r in rows ==> (Holds(w1, r) <==> Holds(w2, r))
    ensures Updated(rows, sets, w1) == Updated(rows, sets, w2)
  {
    assert forall i :: 0 <= i < |rows| ==> rows[i] in rows;
  }

  /** An ID added to an `IN` list selects the rows it equals, besides the old ones. */
  lemma SelectedExtend(r: Row, ids: seq<int>, x: int)
    ensures Selected(r, ids + [x]) <==> Selected(r, ids) || SqlEq(Get(r, "ID"), VInt(x))
  {
    SelectedIff(r, ids);
    SelectedIff(r, ids + [x]);
    if Selected(r, ids) {
      var k :| 0 <= k < |ids| && SqlEq(Get(r, "ID"), VInt(ids[k]));
      assert (ids + [x])[k] == ids[k];
    }
    if SqlEq(Get(r, "ID"), VInt(x)) {
      assert (ids + [x])[|ids|] == x;
    }
    if Selected(r, ids + [x]) {
      var k :| 0 <= k < |ids + [x]| && SqlEq(Get(r, "ID"), VInt((ids + [x])[k]));
      if k < |ids| {
        assert (ids + [x])[k] == ids[k];
      }
    }
  }

  /** `UPDATE ... WHERE w` rewrites exactly the rows `w` holds for, each seeing its own
      old values. */
  lemma UpdateWhereRow(db: Tables, table: string, sets: seq<(string, Expr)>, w: Where, i: nat)
    requires Exec(db, Update(table, sets, w)).Ok?
    requires table in db && i < |db[table].rows|
    ensures var rows := Exec(db, Update(table, sets, w)).value[table].rows;
      && |rows| == |db[table].rows|
      && rows[i] == if Holds(w, db[table].rows[i]) then Assign(db[table].rows[i], sets, db[table].rows[i]) else db[table].rows[i]
  {
  }

  /** `UPDATE ... WHERE ID IN ids` rewrites exactly the selected rows, each seeing its own
      old values. */
  lemma UpdateRow(db: Tables, table: string, sets: seq<(string, Expr)>, ids: seq<int>, i: nat)
    requires Exec(db, Update(table, sets, IdIn(ids))).Ok?
    requires table in db && i < |db[table].rows|
    ensures var rows := Exec(db, Update(table, sets, IdIn(ids))).value[table].rows;
      && |rows| == |db[table].rows|
      && rows[i] == if Selected(db[table].rows[i], ids) then Assign(db[table].rows[i], sets, db[table].rows[i]) else db[table].rows[i]
  {
  }

  /** `CASE ID WHEN ...` takes the first arm whose ID equals the row's, and is NULL
      when none does. */
  lemma CaseValueHit(id: Value, whens: seq<(int, Value)>)
    ensures (exists k :: 0 <= k < |whens| && SqlEq(id, VInt(whens[k].0))) ==>
      exists k :: && 0 <= k < |whens| && SqlEq(id, VInt(whens[k].0))
                  && (forall j :: 0 <= j < k ==> !SqlEq(id, VInt(whens[j].0)))
                  && CaseValue(id, whens) == whens[k].1
    ensures (forall k :: 0 <= k < |whens| ==> !SqlEq(id, VInt(whens[k].0))) ==> CaseValue(id, whens) == VNull
  {
    if exists k :: 0 <= k < |whens| && SqlEq(id, VInt(whens[k].0)) {
      var k := CaseFirstArm(id, whens);
    } else {
      CaseValueMiss(id, whens);
    }
  }

  /** The arm `CASE` takes: the first whose ID equals the row's. */
  lemma {:induction false} CaseFirstArm(id: Value, whens: seq<(int, Value)>) returns (k: nat)
    requires exists k :: 0 <= k < |whens| && SqlEq(id, VInt(whens[k].0))
    ensures k < |whens| && SqlEq(id, VInt(whens[k].0))
    ensures forall j :: 0 <= j < k ==> !SqlEq(id, VInt(whens[j].0))
    ensures CaseValue(id, whens) == whens[k].1
    decreases |whens|
  {
    if SqlEq(id, VInt(whens[0].0)) {
      k := 0;
    } else {
      var tail := whens[1..];
      var m :| 0 <= m < |whens| && SqlEq(id, VInt(whens[m].0));
      assert tail[m - 1] == whens[m];
      var k1 := CaseFirstArm(id, tail);
      k := k1 + 1;
      forall j | 0 <= j < k ensures !SqlEq(id, VInt(whens[j].0)) {
        if j > 0 {
          assert whens[j] == tail[j - 1];
        }
      }
    }
  }

  /** No arm matches: `CASE` without `ELSE` gives NULL. */
  lemma {:induction false} CaseValueMiss(id: Value, whens: seq<(int, Value)>)
    requires forall k :: 0 <= k < |whens| ==> !SqlEq(id, VInt(whens[k].0))
    ensures CaseValue(id, whens) == VNull
    decreases |whens|
  {
    if whens != [] {
      var tail := whens[1..];
      assert forall k :: 0 <= k < |tail| ==> tail[k] == whens[k + 1];
      CaseValueMiss(id, tail);
    }
  }

  // ---------------------------------------------------------------------------
  // The session

  /** How the session runs the statements it is given. `faults` is the set of
      positions, counted from 0 in the order submitted, at which the session
      raises for reasons outside the model (network, permissions, locks). */
  predicate FaultFree(n: nat, faults: set<nat>) {
    forall i :: 0 <= i < n ==> i !in faults
  }

  /** How a page action ended: nothing to do, an exception before the transaction
      began, committed, or rolled back. */
  datatype Outcome = Skipped | Crashed | Committed | RolledBack

  class Db {
    var tables: Tables

    constructor(t: Tables)
      ensures tables == t
    {
      tables := t;
    }

    /** `BEGIN`, the statements, `COMMIT`; on the first exception `ROLLBACK`. */
    method RunTransaction(stmts: seq<Stmt>, faults: set<nat>) returns (ok: bool)
      modifies this
      ensures ok <==> FaultFree(|stmts|, faults) && RunAll(old(tables), stmts).Ok?
      ensures ok ==> tables == RunAll(old(tables), stmts).value
      ensures !ok ==> tables == old(tables)
    {
      var snapshot := tables;
      var done := RunUntilFailure(stmts, faults);
      ok := done == |stmts|;
      if ok {
        assert stmts[..done] == stmts;
      } else {
        if done !in faults {
          RunAllStep(snapshot, stmts, done, tables);
          RunAllPrefixErr(snapshot, stmts, done + 1);
        }
        tables := snapshot;
      }
    }

    /** Each statement in its own autocommit; a failure is recorded and the next one runs. */
    method RunEach(stmts: seq<Stmt>, faults: set<nat>) returns (oks: seq<bool>)
      modifies this
      ensures oks == EachOks(old(tables), stmts, faults, |stmts|)
      ensures tables == EachState(old(tables), stmts, faults, |stmts|)
    {
      ghost var t0 := tables;
      oks := [];
      var i := 0;
      while i < |stmts|
        invariant 0 <= i <= |stmts|
        invariant tables == EachState(t0, stmts, faults, i)
        invariant oks == EachOks(t0, stmts, faults, i)
      {
        var ok := false;
        if i !in faults {
          var r := Exec(tables, stmts[i]);
          if r.Ok? {
            tables := r.value;
            ok := true;
          }
        }
        oks := oks + [ok];
        i := i + 1;
      }
    }

    /** Statements in order, each committed on its own, stopping at the first exception:
        a loop of statements inside one `try`, without a transaction. */
    method RunUntilFailure(stmts: seq<Stmt>, faults: set<nat>) returns (done: nat)
      modifies this
      ensures done <= |stmts|
      ensures FaultFree(done, faults) && RunAll(old(tables), stmts[..done]).Ok?
      ensures tables == RunAll(old(tables), stmts[..done]).value
      ensures done < |stmts| ==> done in faults || Exec(tables, stmts[done]).Err?
    {
      ghost var t0 := tables;
      var i := 0;
      while i < |stmts|
        invariant 0 <= i <= |stmts|
        invariant FaultFree(i, faults)
        invariant RunAll(t0, stmts[..i]) == Ok(tables)
      {
        if i in faults {
          return i;
        }
        var r := Exec(tables, stmts[i]);
        if r.Err? {
          return i;
        }
        RunAllStep(t0, stmts, i, tables);
        tables := r.value;
        i := i + 1;
      }
      return i;
    }
  }

  /** The state after the first `n` statements of an autocommit run. */
  function EachState(db: Tables, stmts: seq<Stmt>, faults: set<nat>, n: nat): Tables
    requires n <= |stmts|
    decreases n
  {
    if n == 0 then db
    else
      var prev := EachState(db, stmts, faults, n - 1);
      if n - 1 in faults then prev
      else match Exec(prev, stmts[n - 1])
        case Ok(next) => next
        case Err(_) => prev
  }

  /** Whether statement `i` of an autocommit run took effect. */
  predicate EachOk(db: Tables, stmts: seq<Stmt>, faults: set<nat>, i: nat)
    requires i < |stmts|
  {
    i !in faults && Exec(EachState(db, stmts, faults, i), stmts[i]).Ok?
  }

  function EachOks(db: Tables, stmts: seq<Stmt>, faults: set<nat>, n: nat): (oks: seq<bool>)
    requires n <= |stmts|
    ensures |oks| == n
    ensures forall i :: 0 <= i < n ==> (oks[i] <==> EachOk(db, stmts, faults, i))
    decreases n
  {
    if n == 0 then [] else EachOks(db, stmts, faults, n - 1) + [EachOk(db, stmts, faults, n - 1)]
  }

  lemma RunAllStep(db: Tables, stmts: seq<Stmt>, i: nat, t: Tables)
    requires i < |stmts| && RunAll(db, stmts[..i]) == Ok(t)
    ensures RunAll(db, stmts[..i + 1]) == Exec(t, stmts[i])
  {
    RunAllSnoc(db, stmts[..i], stmts[i]);
    assert stmts[..i + 1] == stmts[..i] + [stmts[i]];
  }

  lemma RunAllPrefixErr(db: Tables, stmts: seq<Stmt>, n: nat)
    requires 0 < n <= |stmts|
    requires RunAll(db, stmts[..n]).Err?
    ensures RunAll(db, stmts).Err?
  {
    RunAllAppendErr(db, stmts[..n], stmts[n..]);
    assert stmts[..n] + stmts[n..] == stmts;
  }

  lemma {:induction false} RunAllAppendErr(db: Tables, a: seq<Stmt>, b: seq<Stmt>)
    requires RunAll(db, a).Err?
    ensures RunAll(db, a + b).Err?
    decreases |a|
  {
    if a != [] {
      assert (a + b)[1..] == a[1..] + b;
      match Exec(db, a[0]) {
        case Ok(db1) => RunAllAppendErr(db1, a[1..], b);
        case Err(_) =>
      }
    }
  }
}
