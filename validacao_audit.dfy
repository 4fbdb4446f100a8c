/** The older validation page: a decision writes one audit row per item and
    moves the items, all inside one transaction, so that a failure anywhere
    leaves no audit row behind; and it stamps the decision's metadata
    unconditionally, so that a store without those columns rolls it all back. */
module ValidacaoAudit {
  import opened Wrappers
  import opened Cells
  import opened SqlText
  import opened Store
  import opened Moves
  import opened Validacao

  /** The audit table's columns, in the order of the INSERT. */
  const AUDIT_COLS: seq<string> := ["ID_ITEM", "CODIGO_PRODUTO", "DECISAO", "OBS", "VALIDADO_POR", "NOME_VALIDADOR"]

  // ---------------------------------------------------------------------------
  // The audit rows

  /** The audited item code of `id`: NULL when no item has that ID or its code is null,
      else the code as text; `None` where the lookup raises (a frame without ID, or a
      found item in a frame without CODIGO_PRODUTO). */
  function AuditCode(items: Table, id: int): Option<Value> {
    if "ID" !in items.cols then None
    else
      var k := FirstWithId(items.rows, id);
      if k == |items.rows| then Some(VNull)
      else if "CODIGO_PRODUTO" !in items.cols then None
      else
        var code := Get(items.rows[k], "CODIGO_PRODUTO");
        Some(if IsNa(code) then VNull else VStr(PyStr(code)))
  }

  /** The lookup raises iff the frame has no ID column, or an item of that ID is found
      in a frame without CODIGO_PRODUTO; with no item of that ID the code is NULL; a code
      that is not NULL is the text of a non-null code of an item of that ID. */
  lemma AuditCodeSpec(items: Table, id: int)
    ensures AuditCode(items, id).None? <==>
      "ID" !in items.cols || ("CODIGO_PRODUTO" !in items.cols && exists x :: x in items.rows && PyEq(Get(x, "ID"), VInt(id)))
    ensures "ID" in items.cols && (forall x :: x in items.rows ==> !PyEq(Get(x, "ID"), VInt(id))) ==>
      AuditCode(items, id) == Some(VNull)
    ensures AuditCode(items, id).Some? && AuditCode(items, id).value != VNull ==>
      exists x :: x in items.rows && PyEq(Get(x, "ID"), VInt(id)) && !IsNa(Get(x, "CODIGO_PRODUTO"))
        && AuditCode(items, id).value == VStr(PyStr(Get(x, "CODIGO_PRODUTO")))
  {
    if "ID" in items.cols {
      var k := FirstWithId(items.rows, id);
      FirstWithIdSpec(items.rows, id);
      if k < |items.rows| {
        assert items.rows[k] in items.rows;
      } else {
        forall x | x in items.rows ensures !PyEq(Get(x, "ID"), VInt(id)) {
          var j :| 0 <= j < |items.rows| && items.rows[j] == x;
        }
      }
    }
  }

  /** `(id, sql_str(cod), sql_str(decisao), sql_str(obs), sql_str(username), sql_str(name))` */
  function AuditRow(code: Value, decisao: string, obs: Value, user: Actor, id: int): seq<Value> {
    [VInt(id), code, VStr(decisao), SqlStrValue(obs), SqlStrValue(user.username), SqlStrValue(user.name)]
  }

  /** The VALUES of the audit INSERT, one row per ID in order; `None` when a lookup raises. */
  function AuditRows(items: Table, decisao: string, obs: Value, user: Actor, ids: seq<int>): Option<seq<seq<Value>>>
    decreases |ids|
  {
    if ids == [] then Some([])
    else match (AuditRows(items, decisao, obs, user, ids[..|ids| - 1]), AuditCode(items, ids[|ids| - 1]))
      case (Some(vs), Some(code)) => Some(vs + [AuditRow(code, decisao, obs, user, ids[|ids| - 1])])
      case _ => None
  }

  /** The loop that builds the VALUES list; an exception ends it. */
  method AuditValues(items: Table, decisao: string, obs: Value, user: Actor, ids: seq<int>)
    returns (values: Option<seq<seq<Value>>>)
    ensures values == AuditRows(items, decisao, obs, user, ids)
  {
    var acc: seq<seq<Value>> := [];
    var i := 0;
    while i < |ids|
      invariant 0 <= i <= |ids|
      invariant AuditRows(items, decisao, obs, user, ids[..i]) == Some(acc)
    {
      var code := AuditCode(items, ids[i]);
      AuditRowsStep(items, decisao, obs, user, ids, i, acc);
      if code.None? {
        AuditRowsRaise(items, decisao, obs, user, ids, i + 1);
        return None;
      }
      acc := acc + [AuditRow(code.value, decisao, obs, user, ids[i])];
      i := i + 1;
    }
    assert ids[..|ids|] == ids;
    values := Some(acc);
  }

  /** One more ID: its row is appended, or its lookup raises. */
  lemma AuditRowsStep(items: Table, decisao: string, obs: Value, user: Actor, ids: seq<int>, i: nat, acc: seq<seq<Value>>)
    requires i < |ids| && AuditRows(items, decisao, obs, user, ids[..i]) == Some(acc)
    ensures AuditCode(items, ids[i]).None? ==> AuditRows(items, decisao, obs, user, ids[..i + 1]).None?
    ensures AuditCode(items, ids[i]).Some? ==>
      AuditRows(items, decisao, obs, user, ids[..i + 1]) == Some(acc + [AuditRow(AuditCode(items, ids[i]).value, decisao, obs, user, ids[i])])
  {
    assert ids[..i + 1][..i] == ids[..i];
  }

  /** Once a lookup raises the whole list does. */
  lemma {:induction false} AuditRowsRaise(items: Table, decisao: string, obs: Value, user: Actor, ids: seq<int>, k: nat)
    requires k <= |ids| && AuditRows(items, decisao, obs, user, ids[..k]).None?
    ensures AuditRows(items, decisao, obs, user, ids).None?
    decreases |ids| - k
  {
    if k < |ids| {
      var next := ids[..k + 1];
      assert next[..k] == ids[..k];
      AuditRowsRaise(items, decisao, obs, user, ids, k + 1);
    } else {
      assert ids[..k] == ids;
    }
  }

  /** The list raises iff the lookup of some ID does. */
  lemma {:induction false} AuditRowsNone(items: Table, decisao: string, obs: Value, user: Actor, ids: seq<int>)
    ensures AuditRows(items, decisao, obs, user, ids).None? <==> exists i :: 0 <= i < |ids| && AuditCode(items, ids[i]).None?
    decreases |ids|
  {
    if ids != [] {
      var init := ids[..|ids| - 1];
      AuditRowsNone(items, decisao, obs, user, init);
      AuditRowsSplit(items, decisao, obs, user, ids);
      assert forall i :: 0 <= i < |init| ==> init[i] == ids[i];
      if exists i :: 0 <= i < |init| && AuditCode(items, init[i]).None? {
        var i :| 0 <= i < |init| && AuditCode(items, init[i]).None?;
        assert AuditCode(items, ids[i]).None?;
      }
    }
  }

  lemma AuditRowsSplit(items: Table, decisao: string, obs: Value, user: Actor, ids: seq<int>)
    requires ids != []
    ensures AuditRows(items, decisao, obs, user, ids).None? <==>
      AuditRows(items, decisao, obs, user, ids[..|ids| - 1]).None? || AuditCode(items, ids[|ids| - 1]).None?
  {
  }

  /** One audit row per ID, in order: the `i`-th is the row of the `i`-th ID. */
  lemma {:induction false} AuditRowAt(items: Table, decisao: string, obs: Value, user: Actor, ids: seq<int>, i: nat)
    requires AuditRows(items, decisao, obs, user, ids).Some? && i < |ids|
    ensures var vs := AuditRows(items, decisao, obs, user, ids).value;
      && |vs| == |ids| && AuditCode(items, ids[i]).Some?
      && vs[i] == AuditRow(AuditCode(items, ids[i]).value, decisao, obs, user, ids[i])
    decreases |ids|
  {
    var init := ids[..|ids| - 1];
    if i < |ids| - 1 {
      AuditRowAt(items, decisao, obs, user, init, i);
      assert init[i] == ids[i];
    } else if |init| > 0 {
      AuditRowAt(items, decisao, obs, user, init, |init| - 1);
    }
  }

  // ---------------------------------------------------------------------------
  // The transaction

  /** The metadata stamped on the copied rows, whatever columns the store has. */
  function AuditStamps(decisao: string, user: Actor, obs: Value): seq<(string, Expr)> {
    if decisao == APROVADO then
      [("APROVADO_POR", Lit(SqlStrValue(user.username))), ("NOME_VALIDADOR", Lit(SqlStrValue(user.name)))]
    else
      [("REPROVADO_POR", Lit(SqlStrValue(user.username))), ("NOME_VALIDADOR", Lit(SqlStrValue(user.name))),
       ("MOTIVO", Lit(SqlStrValue(obs)))]
  }

  function AuditInsert(audit: string, values: seq<seq<Value>>): Stmt {
    InsertValues(audit, AUDIT_COLS, values)
  }

  /** BEGIN; audit INSERT; move INSERT; metadata UPDATE; DELETE; COMMIT. */
  function AuditedPlan(db: Tables, st: Stores, audit: string, decisao: string, user: Actor, obs: Value,
                       values: seq<seq<Value>>, ids: seq<int>): seq<Stmt>
    requires st.main in db && Target(st, decisao) in db
  {
    [AuditInsert(audit, values)]
    + MovePlan(st.main, Target(st, decisao), DecisionCols(db, st, decisao), AuditStamps(decisao, user, obs), ids)
  }

  /** `apply_decision` of the older page. The schemas are read, and the audit rows built,
      before BEGIN, where an exception is not caught. */
  method ApplyAuditedDecision(db: Db, st: Stores, audit: string, items: Table, user: Actor, ids: seq<int>,
                              decisao: string, obs: Value, faults: set<nat>)
    returns (outcome: Outcome)
    modifies db
    ensures outcome == Skipped <==> ids == []
    ensures outcome == Crashed <==>
      && ids != []
      && (AuditRows(items, decisao, obs, user, ids).None? || !(st.main in old(db.tables) && Target(st, decisao) in old(db.tables)))
    ensures outcome.Skipped? || outcome.Crashed? ==> db.tables == old(db.tables)
    ensures outcome.Committed? || outcome.RolledBack? ==>
      && st.main in old(db.tables) && Target(st, decisao) in old(db.tables)
      && AuditRows(items, decisao, obs, user, ids).Some?
      && var plan := AuditedPlan(old(db.tables), st, audit, decisao, user, obs, AuditRows(items, decisao, obs, user, ids).value, ids);
      && (outcome.Committed? <==> FaultFree(|plan|, faults) && RunAll(old(db.tables), plan).Ok?)
      && (outcome.Committed? ==> db.tables == RunAll(old(db.tables), plan).value)
      && (outcome.RolledBack? ==> db.tables == old(db.tables))
  {
    if ids == [] {
      return Skipped;
    }
    var values := AuditValues(items, decisao, obs, user, ids);
    if values.None? || !(st.main in db.tables && Target(st, decisao) in db.tables) {
      return Crashed;
    }
    var plan := AuditedPlan(db.tables, st, audit, decisao, user, obs, values.value, ids);
    var ok := db.RunTransaction(plan, faults);
    outcome := if ok then Committed else RolledBack;
  }

  // ---------------------------------------------------------------------------
  // What a committed decision does

  /** The audit rows as the INSERT appends them. */
  function AuditNew(auditCols: seq<string>, values: seq<seq<Value>>): seq<Row>
    requires forall i :: 0 <= i < |values| ==> |values[i]| == |AUDIT_COLS|
  {
    seq(|values|, i requires 0 <= i < |values| => NewRow(auditCols, AUDIT_COLS, values[i]))
  }

  /** The stores after the audit INSERT. */
  function Audited(db: Tables, audit: string, values: seq<seq<Value>>): Tables
    requires audit in db && forall i :: 0 <= i < |values| ==> |values[i]| == |AUDIT_COLS|
  {
    db[audit := Append(db[audit], AuditNew(db[audit].cols, values))]
  }

  /** What the whole transaction needs to run without an SQL error. */
  predicate AuditedFits(db: Tables, st: Stores, audit: string, decisao: string, values: seq<seq<Value>>)
    requires st.main in db && Target(st, decisao) in db
  {
    var tcols := db[Target(st, decisao)].cols;
    && audit in db && values != [] && AllIn(AUDIT_COLS, db[audit].cols) && ValuesFit(AUDIT_COLS, values)
    && DecisionCols(db, st, decisao) != [] && "ID" in db[st.main].cols && "ID" in tcols
    && "NOME_VALIDADOR" in tcols
    && (decisao == APROVADO ==> "APROVADO_POR" in tcols)
    && (decisao != APROVADO ==> "REPROVADO_POR" in tcols && "MOTIVO" in tcols)
  }

  lemma AuditStampsFit(tcols: seq<string>, decisao: string, user: Actor, obs: Value)
    ensures AuditStamps(decisao, user, obs) != []
    ensures SetsFit(AuditStamps(decisao, user, obs), tcols) <==>
      && "NOME_VALIDADOR" in tcols
      && (decisao == APROVADO ==> "APROVADO_POR" in tcols)
      && (decisao != APROVADO ==> "REPROVADO_POR" in tcols && "MOTIVO" in tcols)
  {
    var stamps := AuditStamps(decisao, user, obs);
    if decisao == APROVADO {
      assert stamps[0].0 == "APROVADO_POR" && stamps[1].0 == "NOME_VALIDADOR";
    } else {
      assert stamps[0].0 == "REPROVADO_POR" && stamps[1].0 == "NOME_VALIDADOR" && stamps[2].0 == "MOTIVO";
    }
  }

  lemma AuditInsertStep(db: Tables, audit: string, values: seq<seq<Value>>)
    ensures Exec(db, AuditInsert(audit, values)).Ok? <==>
      audit in db && values != [] && AllIn(AUDIT_COLS, db[audit].cols) && ValuesFit(AUDIT_COLS, values)
    ensures Exec(db, AuditInsert(audit, values)).Ok? ==> Exec(db, AuditInsert(audit, values)).value == Audited(db, audit, values)
  {
  }

  /** The transaction commits (barring faults) exactly when the audit table and both
      stores fit it, and then it is the audit INSERT followed by the generic move. */
  lemma AuditedOutcome(db: Tables, st: Stores, audit: string, decisao: string, user: Actor, obs: Value,
                       values: seq<seq<Value>>, ids: seq<int>)
    requires Distinct(st) && audit != st.main && audit != Target(st, decisao)
    requires st.main in db && Target(st, decisao) in db
    ensures var plan := AuditedPlan(db, st, audit, decisao, user, obs, values, ids);
      && (RunAll(db, plan).Ok? <==> AuditedFits(db, st, audit, decisao, values))
      && (RunAll(db, plan).Ok? ==>
            RunAll(db, plan).value
            == MoveResult(Audited(db, audit, values), st.main, Target(st, decisao), DecisionCols(db, st, decisao),
                          AuditStamps(decisao, user, obs), ids))
  {
    var t := Target(st, decisao);
    var ins := AuditInsert(audit, values);
    var stamps := AuditStamps(decisao, user, obs);
    var move := MovePlan(st.main, t, DecisionCols(db, st, decisao), stamps, ids);
    RunAllAppend(db, [ins], move);
    RunAllOne(db, ins);
    AuditInsertStep(db, audit, values);
    AuditStampsFit(db[t].cols, decisao, user, obs);
    if Exec(db, ins).Ok? {
      var d1 := Audited(db, audit, values);
      assert d1[st.main] == db[st.main] && d1[t] == db[t];
      MoveOutcome(d1, st.main, t, DecisionCols(db, st, decisao), stamps, ids);
    }
  }

  /** Besides the audit rows, which are appended to the audit table, a committed decision
      is the generic move between the two stores, and every other table is kept. */
  lemma AuditedSplits(db: Tables, st: Stores, audit: string, decisao: string, user: Actor, obs: Value,
                      values: seq<seq<Value>>, ids: seq<int>, other: string)
    requires st.main != Target(st, decisao) && audit != st.main && audit != Target(st, decisao)
    requires st.main in db && Target(st, decisao) in db && audit in db
    requires forall i :: 0 <= i < |values| ==> |values[i]| == |AUDIT_COLS|
    requires other in db && other != audit && other != st.main && other != Target(st, decisao)
    ensures var t := Target(st, decisao);
      var cols := DecisionCols(db, st, decisao);
      var stamps := AuditStamps(decisao, user, obs);
      var r := MoveResult(Audited(db, audit, values), st.main, t, cols, stamps, ids);
      var m := MoveResult(db, st.main, t, cols, stamps, ids);
      && r[audit].rows == db[audit].rows + AuditNew(db[audit].cols, values)
      && r[st.main] == m[st.main] && r[t] == m[t]
      && r[other] == db[other]
  {
  }

  /** An audit row as inserted holds each listed value under its column. */
  lemma AuditCells(auditCols: seq<string>, vals: seq<Value>)
    requires |vals| == |AUDIT_COLS| && AllIn(AUDIT_COLS, auditCols)
    ensures var row := NewRow(auditCols, AUDIT_COLS, vals);
      && Get(row, "ID_ITEM") == vals[0] && Get(row, "CODIGO_PRODUTO") == vals[1]
      && Get(row, "DECISAO") == vals[2] && Get(row, "VALIDADO_POR") == vals[4]
  {
    assert AUDIT_COLS[0] in AUDIT_COLS && AUDIT_COLS[1] in AUDIT_COLS && AUDIT_COLS[2] in AUDIT_COLS && AUDIT_COLS[4] in AUDIT_COLS;
  }

  /** After a committed decision the audit table holds, after its old rows, one row per
      ID in order, carrying that ID, its code, the decision and the validating user. */
  lemma AuditRowsStored(items: Table, decisao: string, obs: Value, user: Actor, ids: seq<int>,
                        auditCols: seq<string>, i: nat)
    requires AuditRows(items, decisao, obs, user, ids).Some? && i < |ids|
    requires AllIn(AUDIT_COLS, auditCols)
    ensures var vs := AuditRows(items, decisao, obs, user, ids).value;
      && |vs| == |ids| && (forall j :: 0 <= j < |vs| ==> |vs[j]| == |AUDIT_COLS|)
      && AuditCode(items, ids[i]).Some?
      && var row := AuditNew(auditCols, vs)[i];
      && Get(row, "ID_ITEM") == VInt(ids[i])
      && Get(row, "CODIGO_PRODUTO") == AuditCode(items, ids[i]).value
      && Get(row, "DECISAO") == VStr(decisao)
      && Get(row, "VALIDADO_POR") == SqlStrValue(user.username)
  {
    var vs := AuditRows(items, decisao, obs, user, ids).value;
    AuditRowAt(items, decisao, obs, user, ids, i);
    forall j | 0 <= j < |vs| ensures |vs[j]| == |AUDIT_COLS| {
      AuditRowAt(items, decisao, obs, user, ids, j);
    }
    AuditCells(auditCols, vs[i]);
  }

  /** After an approval every approved row of a selected ID carries the validator's login
      and name; after a rejection every correction row of one carries those and the reason. */
  lemma AuditedStamped(db: Tables, st: Stores, decisao: string, user: Actor, obs: Value, ids: seq<int>, y: Row)
    requires st.main in db && Target(st, decisao) in db
    requires y in TargetAfter(db, st.main, Target(st, decisao), DecisionCols(db, st, decisao), AuditStamps(decisao, user, obs), ids)
    requires Selected(y, ids)
    ensures decisao == APROVADO ==> Get(y, "APROVADO_POR") == SqlStrValue(user.username)
    ensures decisao != APROVADO ==> Get(y, "REPROVADO_POR") == SqlStrValue(user.username) && Get(y, "MOTIVO") == SqlStrValue(obs)
    ensures Get(y, "NOME_VALIDADOR") == SqlStrValue(user.name)
  {
    var t := Target(st, decisao);
    var cols := DecisionCols(db, st, decisao);
    var stamps := AuditStamps(decisao, user, obs);
    assert forall k :: 0 <= k < |stamps| ==> stamps[k].0 != "ID";
    assert "ID" !in SetCols(stamps);
    StampedRow(db, st.main, t, cols, stamps, ids, y, 0);
    StampedRow(db, st.main, t, cols, stamps, ids, y, 1);
    if decisao != APROVADO {
      StampedRow(db, st.main, t, cols, stamps, ids, y, 2);
    }
  }
}
