/** Resubmission after correction, on the rejected-items page: the corrections a
    user types into the rejected rows are written back to the corrections store
    (COR), and the selected items then move back to the validation queue (MAIN),
    with their update stamps cleared; all in one transaction. */
module NaoAprovados {
  import opened Wrappers
  import opened Cells
  import opened SqlText
  import opened Store
  import opened Columns
  import opened Moves
  import opened Validacao

  /** The columns of a rejected item a user may correct. */
  const EDITABLE_COR_COLS: seq<string> := [
    "GRUPO", "CATEGORIA", "SEGMENTO", "FAMILIA", "SUBFAMILIA", "TIPO_CODIGO", "CODIGO_PRODUTO",
    "INSUMO", "ITEM", "DESCRICAO", "ESPECIFICACAO", "MARCA", "EMB_PRODUTO", "UN_MED", "QTD_MED",
    "EMB_COMERCIAL", "QTD_EMB_COMERCIAL", "SINONIMO", "PALAVRA_CHAVE", "REFERENCIA"]

  /** The columns the editor shows read-only. */
  const LOCK_COR: set<string> := {
    "ID", "DATA_CADASTRO", "USUARIO_CADASTRO", "DATA_REPROVACAO", "USUARIO_REPROVACAO", "MOTIVO"}

  /** The column order of the corrections editor (behind the "Selecionar" checkbox). */
  const ORDER_CORRECOES: seq<string> := [
    "ID", "GRUPO", "CATEGORIA", "SEGMENTO", "FAMILIA", "SUBFAMILIA",
    "TIPO_CODIGO", "CODIGO_PRODUTO", "INSUMO", "ITEM", "DESCRICAO", "ESPECIFICACAO",
    "MARCA", "EMB_PRODUTO", "UN_MED", "QTD_MED", "EMB_COMERCIAL", "QTD_EMB_COMERCIAL",
    "SINONIMO", "PALAVRA_CHAVE", "REFERENCIA",
    "DATA_CADASTRO", "USUARIO_CADASTRO",
    "DATA_REPROVACAO", "USUARIO_REPROVACAO",
    "MOTIVO",
    "DATA_ATUALIZACAO", "USUARIO_ATUALIZACAO"]

  const DATA_ATUALIZACAO: string := "DATA_ATUALIZACAO"
  const USUARIO_ATUALIZACAO: string := "USUARIO_ATUALIZACAO"

  /** The editor's column order. */
  function CorrecoesView(cols: seq<string>): seq<string> {
    ReorderPrepend(cols, ORDER_CORRECOES, ["Selecionar"])
  }

  /** No locked column can be written through the allow-list. */
  lemma LockedNotEditable(c: string)
    requires c in LOCK_COR
    ensures c !in EDITABLE_COR_COLS
  {
  }

  /** Neither the key nor the refresh stamp is on the allow-list. */
  lemma EditableAllowOk()
    ensures AllowOk(EDITABLE_COR_COLS)
  {
  }

  // ---------------------------------------------------------------------------
  // The edited rows by ID

  /** `{int(r["ID"]): r for r in edited if int(r["ID"]) in ids}`: the last row of an
      ID wins; `None` where `int` raises (a missing or non-numeric ID). */
  function EditedMap(rows: seq<Row>, ids: seq<int>): Option<map<int, Row>>
    decreases |rows|
  {
    if rows == [] then Some(map[])
    else
      match EditedMap(rows[..|rows| - 1], ids)
      case None => None
      case Some(m) =>
        var r := rows[|rows| - 1];
        match RowId(r)
        case None => None
        case Some(x) => Some(if x in ids then m[x := r] else m)
  }

  /** The ID `int(r["ID"])` reads, if any. */
  function RowId(r: Row): Option<int> {
    PyInt(Get(r, "ID"))
  }

  /** The map fails iff some row's ID is not an integer. */
  lemma {:induction false} EditedMapFails(rows: seq<Row>, ids: seq<int>)
    ensures EditedMap(rows, ids).None? <==> exists j :: 0 <= j < |rows| && RowId(rows[j]).None?
    decreases |rows|
  {
    if rows != [] {
      var n := |rows| - 1;
      var p := rows[..n];
      EditedMapFails(p, ids);
      assert EditedMap(rows, ids).None? <==> EditedMap(p, ids).None? || RowId(rows[n]).None?;
      FailsSnoc(rows, RowId);
    }
  }

  /** Otherwise it holds exactly the selected IDs that some row carries. */
  lemma {:induction false} EditedMapKeys(rows: seq<Row>, ids: seq<int>, x: int)
    requires EditedMap(rows, ids).Some?
    ensures x in EditedMap(rows, ids).value <==> x in ids && exists j :: 0 <= j < |rows| && RowId(rows[j]) == Some(x)
    decreases |rows|
  {
    if rows != [] {
      var n := |rows| - 1;
      EditedMapKeys(rows[..n], ids, x);
      var m := EditedMap(rows[..n], ids).value;
      var y := RowId(rows[n]).value;
      assert EditedMap(rows, ids).value == if y in ids then m[y := rows[n]] else m;
      CarriesIdSnoc(rows, RowId, x);
    }
  }

  /** Row `j` is the last one whose ID reads as `x`. */
  predicate LastWith(rows: seq<Row>, j: int, x: int) {
    0 <= j < |rows| && RowId(rows[j]) == Some(x) && forall j2 :: j < j2 < |rows| ==> RowId(rows[j2]) != Some(x)
  }

  /** ... each with the last row that carries it. */
  lemma {:induction false} EditedMapLast(rows: seq<Row>, ids: seq<int>, x: int)
    requires EditedMap(rows, ids).Some? && x in EditedMap(rows, ids).value
    ensures exists j :: LastWith(rows, j, x) && rows[j] == EditedMap(rows, ids).value[x]
    decreases |rows|
  {
    var n := |rows| - 1;
    var p := rows[..n];
    var m := EditedMap(p, ids).value;
    var y := RowId(rows[n]).value;
    assert EditedMap(rows, ids).value == if y in ids then m[y := rows[n]] else m;
    EditedMapKeys(rows, ids, x);
    if y == x {
      assert LastWith(rows, n, x);
    } else {
      EditedMapLast(p, ids, x);
      var j :| LastWith(p, j, x) && p[j] == m[x];
      LastWithExtend(rows, j, x);
    }
  }

  lemma LastWithExtend(rows: seq<Row>, j: int, x: int)
    requires rows != [] && LastWith(rows[..|rows| - 1], j, x) && RowId(rows[|rows| - 1]) != Some(x)
    ensures LastWith(rows, j, x) && rows[j] == rows[..|rows| - 1][j]
  {
    var p := rows[..|rows| - 1];
    assert rows[j] == p[j];
    LaterMissSnoc(rows, p, RowId, j, x);
  }

  /** Every selected ID has an edited row. */
  predicate Covers(m: map<int, Row>, ids: seq<int>) {
    forall x :: x in ids ==> x in m
  }

  // ---------------------------------------------------------------------------
  // The edits written back to COR

  /** One resubmission's edits: the allow-list, the edited frame's columns, its rows by
      ID, and the value `CURRENT_TIMESTAMP()` gives the statements. */
  datatype Edit = Edit(allow: seq<string>, cols: seq<string>, m: map<int, Row>, now: Value)

  /** An allow-list that names neither the key nor the refresh stamp. */
  predicate AllowOk(allow: seq<string>) {
    "ID" !in allow && DATA_ATUALIZACAO !in allow
  }

  /** The allowed columns the edited frame has (`if c in row`), in the allow-list's order. */
  function EditCols(e: Edit): seq<string> {
    Present(e.allow, e.cols)
  }

  /** The value an edit of ID `x` writes in column `c`: the refresh stamp, or the edited
      cell as `sql_str` renders it. */
  function EditValue(e: Edit, x: int, c: string): Value
    requires x in e.m
  {
    if c == DATA_ATUALIZACAO then e.now else SqlStrValue(Get(e.m[x], c))
  }

  /** `SET c = sql_str(row[c]), ..., DATA_ATUALIZACAO = CURRENT_TIMESTAMP()` */
  function EditSets(e: Edit, x: int): seq<(string, Expr)>
    requires x in e.m
  {
    var ec := EditCols(e);
    seq(|ec|, k requires 0 <= k < |ec| => (ec[k], Lit(SqlStrValue(Get(e.m[x], ec[k])))))
      + [(DATA_ATUALIZACAO, Lit(e.now))]
  }

  /** `UPDATE COR SET ... WHERE ID = x` */
  function EditStmt(cor: string, e: Edit, x: int): Stmt
    requires x in e.m
  {
    Update(cor, EditSets(e, x), IdIn([x]))
  }

  /** The UPDATE loop over the selected IDs; empty when the frame has no allowed column. */
  function EditUpdates(cor: string, e: Edit, ids: seq<int>): seq<Stmt>
    requires Covers(e.m, ids)
    decreases |ids|
  {
    if ids == [] || EditCols(e) == [] then []
    else EditUpdates(cor, e, ids[..|ids| - 1]) + [EditStmt(cor, e, ids[|ids| - 1])]
  }

  /** Builds the per-ID UPDATE statements in the order the page runs them. */
  method EditStatements(cor: string, e: Edit, ids: seq<int>) returns (stmts: seq<Stmt>)
    requires Covers(e.m, ids)
    ensures stmts == EditUpdates(cor, e, ids)
    ensures EditCols(e) == [] ==> stmts == []
    ensures EditCols(e) != [] ==>
      && |stmts| == |ids|
      && forall i :: 0 <= i < |ids| ==> stmts[i] == EditStmt(cor, e, ids[i])
  {
    var ec := EditCols(e);
    stmts := [];
    var i := 0;
    while i < |ids|
      invariant 0 <= i <= |ids|
      invariant stmts == EditUpdates(cor, e, ids[..i])
      invariant ec != [] ==>
        && |stmts| == i
        && forall k :: 0 <= k < i ==> stmts[k] == EditStmt(cor, e, ids[k])
      invariant ec == [] ==> stmts == []
    {
      if ec != [] {
        stmts := stmts + [EditStmt(cor, e, ids[i])];
      }
      assert ids[..i + 1][..i] == ids[..i];
      i := i + 1;
    }
    assert ids[..i] == ids;
  }

  /** The COR rows after the UPDATE loop. */
  function EditedRows(rows: seq<Row>, e: Edit, ids: seq<int>): (r: seq<Row>)
    requires Covers(e.m, ids)
    ensures |r| == |rows|
    decreases |ids|
  {
    if ids == [] || EditCols(e) == [] then rows
    else
      var x := ids[|ids| - 1];
      Updated(EditedRows(rows, e, ids[..|ids| - 1]), EditSets(e, x), IdIn([x]))
  }

  /** What the UPDATE statements need to run without an SQL error. */
  predicate EditsFit(corCols: seq<string>, e: Edit) {
    "ID" in corCols && DATA_ATUALIZACAO in corCols && AllIn(EditCols(e), corCols)
  }

  /** The columns a SET list of an edit writes, and the value it writes in each. */
  lemma EditSetsShape(e: Edit, x: int)
    requires x in e.m && AllowOk(e.allow)
    ensures forall k :: 0 <= k < |EditSets(e, x)| ==> EditSets(e, x)[k].1 == Lit(EditValue(e, x, EditSets(e, x)[k].0))
    ensures forall c :: c in SetCols(EditSets(e, x)) <==> c in EditCols(e) || c == DATA_ATUALIZACAO
  {
    var s := EditSets(e, x);
    var ec := EditCols(e);
    assert forall k :: 0 <= k < |ec| ==> s[k].0 == ec[k];
    assert s[|ec|].0 == DATA_ATUALIZACAO;
    forall c | c in SetCols(s) ensures c in ec || c == DATA_ATUALIZACAO {
      var k :| 0 <= k < |s| && SetCols(s)[k] == c;
    }
    forall c | c in ec ensures c in SetCols(s) {
      var k :| 0 <= k < |ec| && ec[k] == c;
      assert SetCols(s)[k] == c;
    }
    assert SetCols(s)[|ec|] == DATA_ATUALIZACAO;
  }

  lemma EditSetsFit(e: Edit, x: int, corCols: seq<string>)
    requires x in e.m
    ensures SetsFit(EditSets(e, x), corCols) <==> DATA_ATUALIZACAO in corCols && AllIn(EditCols(e), corCols)
  {
    var s := EditSets(e, x);
    var ec := EditCols(e);
    assert forall k :: 0 <= k < |ec| ==> s[k].0 == ec[k] && s[k].1.Lit?;
    assert s[|ec|] == (DATA_ATUALIZACAO, Lit(e.now));
    if SetsFit(s, corCols) {
      forall c | c in ec ensures c in corCols {
        var k :| 0 <= k < |ec| && ec[k] == c;
        assert s[k].0 == c;
      }
    }
  }

  lemma CoversPrefix(m: map<int, Row>, ids: seq<int>, n: nat)
    requires Covers(m, ids) && n <= |ids|
    ensures Covers(m, ids[..n])
  {
    forall y | y in ids[..n] ensures y in m {
      var k :| 0 <= k < n && ids[..n][k] == y;
      assert ids[k] == y;
    }
  }

  /** The UPDATE loop commits iff its statements fit COR (or there are none), and then
      it leaves COR holding the edited rows and every other table as it was. */
  lemma {:induction false} EditsRun(db: Tables, cor: string, e: Edit, ids: seq<int>)
    requires cor in db && Covers(e.m, ids)
    ensures RunAll(db, EditUpdates(cor, e, ids)).Ok? <==> ids == [] || EditCols(e) == [] || EditsFit(db[cor].cols, e)
    ensures RunAll(db, EditUpdates(cor, e, ids)).Ok? ==>
      RunAll(db, EditUpdates(cor, e, ids)).value == db[cor := Table(db[cor].cols, EditedRows(db[cor].rows, e, ids))]
    decreases |ids|
  {
    if ids == [] || EditCols(e) == [] {
      assert db[cor := Table(db[cor].cols, db[cor].rows)] == db;
    } else {
      var n := |ids| - 1;
      var x := ids[n];
      var p := ids[..n];
      CoversPrefix(e.m, ids, n);
      EditsRun(db, cor, e, p);
      RunAllSnoc(db, EditUpdates(cor, e, p), EditStmt(cor, e, x));
      EditSetsFit(e, x, db[cor].cols);
    }
  }

  /** A numeric ID equals one integer only. */
  lemma SqlEqInt(v: Value, x: int)
    requires SqlEq(v, VInt(x))
    ensures IntegralValue(v) == Some(x)
  {
  }

  /** The value the UPDATE loop leaves in column `c` of a COR row: for a row of a
      selected ID (when the frame has allowed columns), the refresh stamp in
      DATA_ATUALIZACAO and the edited row's value in each allowed column the frame has;
      the row's own value everywhere else. */
  function EditedCell(r0: Row, c: string, e: Edit, ids: seq<int>): Value {
    var x := IntegralValue(Get(r0, "ID"));
    if EditCols(e) != [] && Selected(r0, ids) && x.Some? && x.value in e.m
       && (c == DATA_ATUALIZACAO || c in EditCols(e))
    then EditValue(e, x.value, c)
    else Get(r0, c)
  }

  /** Every cell of every COR row after the loop is the one `EditedCell` describes, and
      a row of no selected ID is left exactly as it was. */
  lemma {:induction false} EditedRowsCells(rows: seq<Row>, e: Edit, ids: seq<int>)
    requires Covers(e.m, ids) && AllowOk(e.allow)
    ensures forall j, c :: 0 <= j < |rows| ==> Get(EditedRows(rows, e, ids)[j], c) == EditedCell(rows[j], c, e, ids)
    ensures forall j :: 0 <= j < |rows| && !Selected(rows[j], ids) ==> EditedRows(rows, e, ids)[j] == rows[j]
    decreases |ids|
  {
    if ids != [] && EditCols(e) != [] {
      var n := |ids| - 1;
      var x := ids[n];
      var p := ids[..n];
      assert ids == p + [x];
      CoversPrefix(e.m, ids, n);
      EditedRowsCells(rows, e, p);
      var prev := EditedRows(rows, e, p);
      forall j, c | 0 <= j < |rows|
        ensures Get(EditedRows(rows, e, ids)[j], c) == EditedCell(rows[j], c, e, ids)
      {
        EditStep(rows[j], prev[j], c, e, p, x);
      }
      forall j | 0 <= j < |rows| && !Selected(rows[j], ids)
        ensures EditedRows(rows, e, ids)[j] == rows[j]
      {
        SelectedExtend(rows[j], p, x);
        SelectedIff(rows[j], [x]);
      }
    }
  }

  /** One more UPDATE of the loop, on one row. */
  lemma EditStep(r0: Row, rn: Row, c: string, e: Edit, p: seq<int>, x: int)
    requires x in e.m && EditCols(e) != [] && AllowOk(e.allow)
    requires forall c' :: Get(rn, c') == EditedCell(r0, c', e, p)
    ensures Get(if Holds(IdIn([x]), rn) then Assign(rn, EditSets(e, x), rn) else rn, c) == EditedCell(r0, c, e, p + [x])
  {
    assert Get(rn, "ID") == Get(r0, "ID") by {
      assert Get(rn, "ID") == EditedCell(r0, "ID", e, p);
    }
    SelectedExtend(r0, p, x);
    SelectedIff(rn, [x]);
    assert Get(rn, c) == EditedCell(r0, c, e, p);
    if Holds(IdIn([x]), rn) {
      assert SqlEq(Get(r0, "ID"), VInt(x));
      SqlEqInt(Get(r0, "ID"), x);
      EditSetsShape(e, x);
      AssignUniform(rn, EditSets(e, x), rn, e, x, c);
    }
  }

  /** An edit's SET list writes each column it names with that column's edit value. */
  lemma {:induction false} AssignUniform(r: Row, sets: seq<(string, Expr)>, base: Row, e: Edit, x: int, c: string)
    requires x in e.m
    requires forall k :: 0 <= k < |sets| ==> sets[k].1 == Lit(EditValue(e, x, sets[k].0))
    ensures Get(Assign(r, sets, base), c) == if c in SetCols(sets) then EditValue(e, x, c) else Get(r, c)
    decreases |sets|
  {
    if sets != [] {
      var r1 := r[sets[0].0 := EditValue(e, x, sets[0].0)];
      assert forall k :: 1 <= k < |sets| ==> sets[1..][k - 1] == sets[k];
      AssignUniform(r1, sets[1..], base, e, x, c);
      assert c in SetCols(sets) <==> c == sets[0].0 || c in SetCols(sets[1..]) by {
        if c in SetCols(sets) {
          var k :| 0 <= k < |sets| && SetCols(sets)[k] == c;
          if k > 0 { assert SetCols(sets[1..])[k - 1] == c; }
        }
        if c in SetCols(sets[1..]) {
          var k :| 0 <= k < |sets| - 1 && SetCols(sets[1..])[k] == c;
          assert SetCols(sets)[k + 1] == c;
        }
        assert SetCols(sets)[0] == sets[0].0;
      }
    }
  }

  // ---------------------------------------------------------------------------
  // Back to the validation queue

  /** The columns copied back: COR's columns that MAIN also has, in COR's order. */
  function CommonCols(db: Tables, st: Stores): seq<string>
    requires st.cor in db && st.main in db
  {
    Present(db[st.cor].cols, db[st.main].cols)
  }

  /** `DATA_ATUALIZACAO = NULL`, `USUARIO_ATUALIZACAO = NULL`, each where MAIN has it. */
  function MetaStamps(mainCols: seq<string>): seq<(string, Expr)> {
    (if DATA_ATUALIZACAO in mainCols then [(DATA_ATUALIZACAO, Lit(VNull))] else [])
    + (if USUARIO_ATUALIZACAO in mainCols then [(USUARIO_ATUALIZACAO, Lit(VNull))] else [])
  }

  /** The statements of the transaction: the edit loop on COR, then the move to MAIN
      with the stamps cleared. */
  function ResendPlan(db: Tables, st: Stores, e: Edit, ids: seq<int>): seq<Stmt>
    requires st.cor in db && st.main in db && Covers(e.m, ids)
  {
    EditUpdates(st.cor, e, ids) + MovePlan(st.cor, st.main, CommonCols(db, st), MetaStamps(db[st.main].cols), ids)
  }

  /** The tables once the edit loop has run. */
  function EditedDb(db: Tables, cor: string, e: Edit, ids: seq<int>): Tables
    requires cor in db && Covers(e.m, ids)
  {
    db[cor := Table(db[cor].cols, EditedRows(db[cor].rows, e, ids))]
  }

  /** The tables after a committed resubmission. */
  function ResendResult(db: Tables, st: Stores, e: Edit, ids: seq<int>): Tables
    requires st.cor in db && st.main in db && st.cor != st.main && Covers(e.m, ids)
  {
    MoveResult(EditedDb(db, st.cor, e, ids), st.cor, st.main, CommonCols(db, st), MetaStamps(db[st.main].cols), ids)
  }

  /** What the transaction needs to run without an SQL error. */
  predicate ResendFits(db: Tables, st: Stores, e: Edit, ids: seq<int>)
    requires st.cor in db && st.main in db
  {
    && (ids == [] || EditCols(e) == [] || EditsFit(db[st.cor].cols, e))
    && CommonCols(db, st) != []
    && "ID" in db[st.cor].cols
    && (MetaStamps(db[st.main].cols) != [] ==> "ID" in db[st.main].cols)
  }

  /** The stamps name MAIN's columns and only the two update stamps. */
  lemma MetaStampsShape(mainCols: seq<string>)
    ensures SetsFit(MetaStamps(mainCols), mainCols)
    ensures forall c :: c in SetCols(MetaStamps(mainCols)) ==> c == DATA_ATUALIZACAO || c == USUARIO_ATUALIZACAO
    ensures forall k :: 0 <= k < |MetaStamps(mainCols)| ==> MetaStamps(mainCols)[k].1 == Lit(VNull)
    ensures |MetaStamps(mainCols)| <= 2
    ensures |MetaStamps(mainCols)| == 2 ==> MetaStamps(mainCols)[0].0 != MetaStamps(mainCols)[1].0
  {
    var s := MetaStamps(mainCols);
    forall c | c in SetCols(s) ensures c == DATA_ATUALIZACAO || c == USUARIO_ATUALIZACAO {
      var k :| 0 <= k < |s| && SetCols(s)[k] == c;
    }
  }

  /** The transaction commits iff its statements fit the two stores, and then its
      result is the edited COR rows moved to MAIN. */
  lemma ResendOutcome(db: Tables, st: Stores, e: Edit, ids: seq<int>)
    requires st.cor in db && st.main in db && st.cor != st.main && Covers(e.m, ids)
    ensures RunAll(db, ResendPlan(db, st, e, ids)).Ok? <==> ResendFits(db, st, e, ids)
    ensures ResendFits(db, st, e, ids) ==> RunAll(db, ResendPlan(db, st, e, ids)).value == ResendResult(db, st, e, ids)
  {
    var cols := CommonCols(db, st);
    var meta := MetaStamps(db[st.main].cols);
    var edits := EditUpdates(st.cor, e, ids);
    var move := MovePlan(st.cor, st.main, cols, meta, ids);
    RunAllAppend(db, edits, move);
    EditsRun(db, st.cor, e, ids);
    var d1 := EditedDb(db, st.cor, e, ids);
    MoveOutcome(d1, st.cor, st.main, cols, meta, ids);
    MetaStampsShape(db[st.main].cols);
    assert d1[st.main] == db[st.main] && d1[st.cor].cols == db[st.cor].cols;
  }

  /** A row's selection is decided by its ID cell alone. */
  lemma SelectedById(a: Row, b: Row, ids: seq<int>)
    requires Get(a, "ID") == Get(b, "ID")
    ensures Selected(a, ids) <==> Selected(b, ids)
  {
  }

  /** The loop keeps every COR row's ID. */
  lemma EditKeepsId(rows: seq<Row>, e: Edit, ids: seq<int>, j: nat)
    requires Covers(e.m, ids) && AllowOk(e.allow) && j < |rows|
    ensures Get(EditedRows(rows, e, ids)[j], "ID") == Get(rows[j], "ID")
    ensures Selected(EditedRows(rows, e, ids)[j], ids) <==> Selected(rows[j], ids)
  {
    EditedRowsCells(rows, e, ids);
    SelectedById(EditedRows(rows, e, ids)[j], rows[j], ids);
  }

  /** After a commit no row of a resent ID is left in COR, and every other COR row is
      there as it was. */
  lemma ResendEmptiesCor(db: Tables, st: Stores, e: Edit, ids: seq<int>, r: Row)
    requires st.cor in db && st.main in db && st.cor != st.main && Covers(e.m, ids) && AllowOk(e.allow)
    ensures r in ResendResult(db, st, e, ids)[st.cor].rows <==> r in db[st.cor].rows && !Selected(r, ids)
  {
    var rows := db[st.cor].rows;
    var ed := EditedRows(rows, e, ids);
    var d1 := EditedDb(db, st.cor, e, ids);
    MoveEmptiesSource(d1, st.cor, st.main, CommonCols(db, st), MetaStamps(db[st.main].cols), ids, r);
    EditedRowsCells(rows, e, ids);
    if r in ed && !Selected(r, ids) {
      var j :| 0 <= j < |ed| && ed[j] == r;
      EditKeepsId(rows, e, ids, j);
    }
  }

  /** After a commit every COR row of a resent ID has a copy in MAIN that carries its
      edited values in every common column but the two cleared stamps. */
  lemma ResendCarriesEdits(db: Tables, st: Stores, e: Edit, ids: seq<int>, j: nat)
    requires st.cor in db && st.main in db && st.cor != st.main && Covers(e.m, ids) && AllowOk(e.allow)
    requires j < |db[st.cor].rows| && Selected(db[st.cor].rows[j], ids)
    ensures exists y :: y in ResendResult(db, st, e, ids)[st.main].rows && forall c ::
      c in CommonCols(db, st) && c != DATA_ATUALIZACAO && c != USUARIO_ATUALIZACAO ==>
        Get(y, c) == EditedCell(db[st.cor].rows[j], c, e, ids)
  {
    var y := ResendCopy(db, st, e, ids, j);
    assert ResendResult(db, st, e, ids)[st.main].rows ==
      TargetAfter(EditedDb(db, st.cor, e, ids), st.cor, st.main, CommonCols(db, st), MetaStamps(db[st.main].cols), ids);
  }

  /** The copy of COR row `j` among MAIN's rows. */
  lemma ResendCopy(db: Tables, st: Stores, e: Edit, ids: seq<int>, j: nat) returns (y: Row)
    requires st.cor in db && st.main in db && st.cor != st.main && Covers(e.m, ids) && AllowOk(e.allow)
    requires j < |db[st.cor].rows| && Selected(db[st.cor].rows[j], ids)
    ensures y in TargetAfter(EditedDb(db, st.cor, e, ids), st.cor, st.main, CommonCols(db, st), MetaStamps(db[st.main].cols), ids)
    ensures forall c :: c in CommonCols(db, st) && c != DATA_ATUALIZACAO && c != USUARIO_ATUALIZACAO ==>
      Get(y, c) == EditedCell(db[st.cor].rows[j], c, e, ids)
  {
    var d1 := EditedDb(db, st.cor, e, ids);
    var after := TargetAfter(d1, st.cor, st.main, CommonCols(db, st), MetaStamps(db[st.main].cols), ids);
    EditKeepsId(db[st.cor].rows, e, ids, j);
    var i := MatchingIndex(d1[st.cor].rows, ids, j);
    CopyIndex(d1, st.cor, st.main, CommonCols(db, st), MetaStamps(db[st.main].cols), ids, i);
    y := after[|db[st.main].rows| + i];
    forall c | c in CommonCols(db, st) && c != DATA_ATUALIZACAO && c != USUARIO_ATUALIZACAO
      ensures Get(y, c) == EditedCell(db[st.cor].rows[j], c, e, ids)
    {
      CopyCell(db, st, e, ids, j, i, c);
    }
  }

  /** One cell of that copy. */
  lemma CopyCell(db: Tables, st: Stores, e: Edit, ids: seq<int>, j: nat, i: nat, c: string)
    requires st.cor in db && st.main in db && st.cor != st.main && Covers(e.m, ids) && AllowOk(e.allow)
    requires j < |db[st.cor].rows|
    requires i < |Matching(EditedRows(db[st.cor].rows, e, ids), IdIn(ids))|
    requires Matching(EditedRows(db[st.cor].rows, e, ids), IdIn(ids))[i] == EditedRows(db[st.cor].rows, e, ids)[j]
    requires c in CommonCols(db, st) && c != DATA_ATUALIZACAO && c != USUARIO_ATUALIZACAO
    ensures |db[st.main].rows| + i < |TargetAfter(EditedDb(db, st.cor, e, ids), st.cor, st.main, CommonCols(db, st), MetaStamps(db[st.main].cols), ids)|
      && Get(TargetAfter(EditedDb(db, st.cor, e, ids), st.cor, st.main, CommonCols(db, st), MetaStamps(db[st.main].cols), ids)[|db[st.main].rows| + i], c)
        == EditedCell(db[st.cor].rows[j], c, e, ids)
  {
    MetaStampsShape(db[st.main].cols);
    var d1 := EditedDb(db, st.cor, e, ids);
    assert d1[st.main] == db[st.main] && d1[st.cor].rows == EditedRows(db[st.cor].rows, e, ids);
    CopyAfterStamps(d1, st.cor, st.main, CommonCols(db, st), MetaStamps(db[st.main].cols), ids, i, c);
    EditedCellAt(db[st.cor].rows, e, ids, j, c);
  }

  lemma EditedCellAt(rows: seq<Row>, e: Edit, ids: seq<int>, j: nat, c: string)
    requires Covers(e.m, ids) && AllowOk(e.allow) && j < |rows|
    ensures Get(EditedRows(rows, e, ids)[j], c) == EditedCell(rows[j], c, e, ids)
  {
    EditedRowsCells(rows, e, ids);
  }

  /** The copies a move appends follow the target's old rows. */
  lemma CopyIndex(db: Tables, source: string, target: string, cols: seq<string>, stamps: seq<(string, Expr)>,
                  ids: seq<int>, i: nat)
    requires source in db && target in db && i < |Matching(db[source].rows, IdIn(ids))|
    ensures |db[target].rows| + i < |TargetAfter(db, source, target, cols, stamps, ids)|
  {
  }

  /** The `i`-th copy a move appends keeps its source row's value in a copied column the
      stamps do not set. */
  lemma CopyAfterStamps(db: Tables, source: string, target: string, cols: seq<string>, stamps: seq<(string, Expr)>,
                        ids: seq<int>, i: nat, c: string)
    requires source in db && target in db && i < |Matching(db[source].rows, IdIn(ids))|
    requires c in cols && c in db[target].cols && c !in SetCols(stamps)
    ensures |db[target].rows| + i < |TargetAfter(db, source, target, cols, stamps, ids)|
      && Get(TargetAfter(db, source, target, cols, stamps, ids)[|db[target].rows| + i], c)
      == Get(Matching(db[source].rows, IdIn(ids))[i], c)
  {
    var moved := Moved(db, source, target, cols, ids);
    var appended := db[target].rows + moved;
    var k := |db[target].rows| + i;
    MovedCells(db, source, target, cols, ids, i, c);
    assert appended[k] == moved[i];
    if stamps != [] {
      UpdatedKeeps(appended, stamps, IdIn(ids), k, c);
    }
  }

  /** After a commit every MAIN row of a resent ID has its update stamps cleared, where
      MAIN has them. */
  lemma ResendClearsStamps(db: Tables, st: Stores, e: Edit, ids: seq<int>, y: Row)
    requires st.cor in db && st.main in db && st.cor != st.main && Covers(e.m, ids)
    requires y in ResendResult(db, st, e, ids)[st.main].rows && Selected(y, ids)
    ensures DATA_ATUALIZACAO in db[st.main].cols ==> Get(y, DATA_ATUALIZACAO) == VNull
    ensures USUARIO_ATUALIZACAO in db[st.main].cols ==> Get(y, USUARIO_ATUALIZACAO) == VNull
  {
    var cols := CommonCols(db, st);
    var meta := MetaStamps(db[st.main].cols);
    var d1 := EditedDb(db, st.cor, e, ids);
    MetaStampsShape(db[st.main].cols);
    assert "ID" !in SetCols(meta);
    if DATA_ATUALIZACAO in db[st.main].cols {
      StampedRow(d1, st.cor, st.main, cols, meta, ids, y, 0);
    }
    if USUARIO_ATUALIZACAO in db[st.main].cols {
      StampedRow(d1, st.cor, st.main, cols, meta, ids, y, |meta| - 1);
    }
  }

  /** A commit writes COR and MAIN only (the audit table among the untouched ones), and
      rows move between the two without being lost or made up. */
  lemma ResendFrame(db: Tables, st: Stores, e: Edit, ids: seq<int>)
    requires st.cor in db && st.main in db && st.cor != st.main && Covers(e.m, ids)
    ensures ResendResult(db, st, e, ids).Keys == db.Keys
    ensures forall n :: n in db && n != st.cor && n != st.main ==> ResendResult(db, st, e, ids)[n] == db[n]
    ensures |ResendResult(db, st, e, ids)[st.cor].rows| + |ResendResult(db, st, e, ids)[st.main].rows|
      == |db[st.cor].rows| + |db[st.main].rows|
  {
    var d1 := EditedDb(db, st.cor, e, ids);
    MoveConserves(d1, st.cor, st.main, CommonCols(db, st), MetaStamps(db[st.main].cols), ids);
  }

  // ---------------------------------------------------------------------------
  // The page action

  /** What must hold before BEGIN for the page not to raise: every row's ID reads as an
      integer, every selected ID has an edited row, and both stores exist. */
  predicate Prepared(db: Tables, st: Stores, edited: Table, ids: seq<int>) {
    && EditedMap(edited.rows, ids).Some?
    && Covers(EditedMap(edited.rows, ids).value, ids)
    && st.cor in db && st.main in db
  }

  /** The edits in the corrections editor. */
  function PageEdit(edited: Table, ids: seq<int>, now: Value): Edit
    requires EditedMap(edited.rows, ids).Some?
  {
    Edit(EDITABLE_COR_COLS, edited.cols, EditedMap(edited.rows, ids).value, now)
  }

  /** `resend_to_validacao`: nothing for no IDs; an exception before BEGIN changes
      nothing; otherwise the transaction commits or leaves every table as it was,
      the COR edits included. */
  method ResendToValidacao(db: Db, st: Stores, edited: Table, ids: seq<int>, now: Value, faults: set<nat>)
    returns (outcome: Outcome)
    requires st.cor != st.main
    modifies db
    ensures outcome == Skipped <==> ids == []
    ensures outcome == Crashed <==> ids != [] && !Prepared(old(db.tables), st, edited, ids)
    ensures outcome == Skipped || outcome == Crashed ==> db.tables == old(db.tables)
    ensures ids != [] && Prepared(old(db.tables), st, edited, ids) ==>
      var plan := ResendPlan(old(db.tables), st, PageEdit(edited, ids, now), ids);
      && (outcome == Committed <==> FaultFree(|plan|, faults) && RunAll(old(db.tables), plan).Ok?)
      && (outcome == Committed ==> db.tables == RunAll(old(db.tables), plan).value)
      && (outcome == RolledBack ==> db.tables == old(db.tables))
  {
    if ids == [] {
      return Skipped;
    }
    var m := EditedMap(edited.rows, ids);
    if m.None? || st.cor !in db.tables || st.main !in db.tables {
      return Crashed;
    }
    // the audit loop reads `edited_map[_id]` for every ID
    var i := 0;
    while i < |ids|
      invariant 0 <= i <= |ids|
      invariant forall k :: 0 <= k < i ==> ids[k] in m.value
    {
      if ids[i] !in m.value {
        var x := ids[i];
        assert x in ids && x !in m.value;
        return Crashed;
      }
      i := i + 1;
    }
    outcome := ResendTransaction(db, st, PageEdit(edited, ids, now), ids, faults);
  }

  /** BEGIN, the edit loop, the move, COMMIT; ROLLBACK on the first exception. */
  method ResendTransaction(db: Db, st: Stores, e: Edit, ids: seq<int>, faults: set<nat>) returns (outcome: Outcome)
    requires st.cor in db.tables && st.main in db.tables && Covers(e.m, ids)
    modifies db
    ensures outcome == Committed || outcome == RolledBack
    ensures var plan := ResendPlan(old(db.tables), st, e, ids);
      && (outcome == Committed <==> FaultFree(|plan|, faults) && RunAll(old(db.tables), plan).Ok?)
      && (outcome == Committed ==> db.tables == RunAll(old(db.tables), plan).value)
      && (outcome == RolledBack ==> db.tables == old(db.tables))
  {
    var tables := db.tables;
    var edits := EditStatements(st.cor, e, ids);
    var plan := edits + MovePlan(st.cor, st.main, CommonCols(tables, st), MetaStamps(tables[st.main].cols), ids);
    var ok := db.RunTransaction(plan, faults);
    outcome := if ok then Committed else RolledBack;
  }
}
