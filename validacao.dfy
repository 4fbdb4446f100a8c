/** The validation page: an approval or a rejection moves the selected pending
    items to the approved store or to the correction store in one transaction,
    after one log call per item made outside it; and before the page's edits are
    saved an empty DESCRICAO is rebuilt from ESPECIFICACAO. */
module Validacao {
  import opened Wrappers
  import opened Text
  import opened Cells
  import opened SqlText
  import opened Utils
  import opened Store
  import opened Columns
  import opened Moves

  /** The names of the pending, approved and correction stores. */
  datatype Stores = Stores(main: string, apr: string, cor: string)

  predicate Distinct(st: Stores) {
    st.main != st.apr && st.main != st.cor && st.apr != st.cor
  }

  const APROVADO: string := "APROVADO"

  /** Where a decision sends the items: anything but APROVADO is a rejection. */
  function Target(st: Stores, decisao: string): string {
    if decisao == APROVADO then st.apr else st.cor
  }

  // ---------------------------------------------------------------------------
  // The log calls made before the transaction

  datatype LogKind = LogValidacao | LogReprovacao

  /** A call of `log_validacao(item_id, codigo_produto, origem, destino, obs, user)` or
      of `log_reprovacao(..., motivo, user)`; the writers themselves are not part of
      this model. */
  datatype LogCall = LogCall(kind: LogKind, itemId: int, codigo: Option<string>,
                             origem: string, destino: string, note: Value, user: Actor)

  /** The position of the first row whose ID equals `id` (`|rows|` when there is none). */
  function FirstWithId(rows: seq<Row>, id: int): (k: nat)
    ensures k <= |rows|
    decreases |rows|
  {
    if rows == [] then 0
    else if PyEq(Get(rows[0], "ID"), VInt(id)) then 0
    else 1 + FirstWithId(rows[1..], id)
  }

  /** The position found holds a row of that ID, and no earlier row has it. */
  lemma {:induction false} FirstWithIdSpec(rows: seq<Row>, id: int)
    ensures var k := FirstWithId(rows, id);
      && (k < |rows| ==> PyEq(Get(rows[k], "ID"), VInt(id)))
      && forall j :: 0 <= j < k ==> !PyEq(Get(rows[j], "ID"), VInt(id))
    decreases |rows|
  {
    if rows != [] && !PyEq(Get(rows[0], "ID"), VInt(id)) {
      FirstWithIdSpec(rows[1..], id);
      assert forall j :: 1 <= j < |rows| ==> rows[1..][j - 1] == rows[j];
    }
  }

  /** The item code logged for `id`: the first row's CODIGO_PRODUTO as text, or
      `None` for no such row, no such column or a null code. The outer `None` is
      a frame without an ID column, where the lookup raises and the log is skipped. */
  function CodigoOf(items: Table, id: int): (c: Option<Option<string>>)
    ensures c.None? <==> "ID" !in items.cols
  {
    if "ID" !in items.cols then None
    else
      var k := FirstWithId(items.rows, id);
      if k == |items.rows| || "CODIGO_PRODUTO" !in items.cols then Some(None)
      else
        var code := Get(items.rows[k], "CODIGO_PRODUTO");
        Some(if IsNa(code) then None else Some(PyStr(code)))
  }

  /** No item of that ID, or no code column, logs no code; a logged code is the
      non-null CODIGO_PRODUTO of an item of that ID, as text. */
  lemma CodigoOfSpec(items: Table, id: int)
    requires "ID" in items.cols
    ensures (forall x :: x in items.rows ==> !PyEq(Get(x, "ID"), VInt(id))) ==> CodigoOf(items, id) == Some(None)
    ensures "CODIGO_PRODUTO" !in items.cols ==> CodigoOf(items, id) == Some(None)
    ensures CodigoOf(items, id).value.Some? ==>
      exists x :: x in items.rows && PyEq(Get(x, "ID"), VInt(id)) && !IsNa(Get(x, "CODIGO_PRODUTO"))
        && CodigoOf(items, id).value.value == PyStr(Get(x, "CODIGO_PRODUTO"))
  {
    var k := FirstWithId(items.rows, id);
    FirstWithIdSpec(items.rows, id);
    if k < |items.rows| {
      assert items.rows[k] in items.rows;
    }
  }

  /** The log call the loop makes for one ID; none when the lookup raised. */
  function LogFor(items: Table, st: Stores, decisao: string, obs: Value, user: Actor, id: int): seq<LogCall> {
    if "ID" in items.cols then [LogEntry(items, st, decisao, obs, user, id)] else []
  }

  /** The call made for an ID of a frame with an ID column. */
  function LogEntry(items: Table, st: Stores, decisao: string, obs: Value, user: Actor, id: int): LogCall
    requires "ID" in items.cols
  {
    LogCall(if decisao == APROVADO then LogValidacao else LogReprovacao,
            id, CodigoOf(items, id).value, st.main, Target(st, decisao), obs, user)
  }

  /** The calls of the loop over the IDs: one per ID, in order, unless the frame has
      no ID column, where every lookup raises. */
  function DecisionLogs(items: Table, st: Stores, decisao: string, obs: Value, user: Actor, ids: seq<int>): seq<LogCall> {
    if "ID" in items.cols then seq(|ids|, i requires 0 <= i < |ids| => LogEntry(items, st, decisao, obs, user, ids[i]))
    else []
  }

  /** One log call per ID, in order, from the pending store to the decision's store,
      with the decision's note; none at all when the frame has no ID column. */
  lemma DecisionLogsEach(items: Table, st: Stores, decisao: string, obs: Value, user: Actor, ids: seq<int>)
    ensures var logs := DecisionLogs(items, st, decisao, obs, user, ids);
      && ("ID" !in items.cols ==> logs == [])
      && ("ID" in items.cols ==>
            && |logs| == |ids|
            && forall i :: 0 <= i < |ids| ==>
                 && logs[i].itemId == ids[i] && logs[i].codigo == CodigoOf(items, ids[i]).value
                 && logs[i].origem == st.main && logs[i].destino == Target(st, decisao)
                 && logs[i].note == obs && logs[i].user == user
                 && (logs[i].kind == LogValidacao <==> decisao == APROVADO))
  {
  }

  // ---------------------------------------------------------------------------
  // The statements of the transaction

  /** The target's columns that the pending store also has, in the target's order. */
  function DecisionCols(db: Tables, st: Stores, decisao: string): seq<string>
    requires st.main in db && Target(st, decisao) in db
  {
    Present(db[Target(st, decisao)].cols, db[st.main].cols)
  }

  /** The metadata the UPDATE writes: an approval stamps its user and time where the
      target has those columns; a rejection always stamps user, time and reason. */
  function DecisionStamps(targetCols: seq<string>, decisao: string, user: Actor, obs: Value, now: Value): seq<(string, Expr)> {
    if decisao == APROVADO then
      (if "USUARIO_APROVACAO" in targetCols then [("USUARIO_APROVACAO", Lit(SqlStrValue(user.name)))] else [])
      + (if "DATA_APROVACAO" in targetCols then [("DATA_APROVACAO", Lit(now))] else [])
    else
      [("USUARIO_REPROVACAO", Lit(SqlStrValue(user.name))), ("DATA_REPROVACAO", Lit(now)), ("MOTIVO", Lit(SqlStrValue(obs)))]
  }

  function DecisionPlan(db: Tables, st: Stores, decisao: string, user: Actor, obs: Value, now: Value, ids: seq<int>): seq<Stmt>
    requires st.main in db && Target(st, decisao) in db
  {
    var t := Target(st, decisao);
    MovePlan(st.main, t, DecisionCols(db, st, decisao), DecisionStamps(db[t].cols, decisao, user, obs, now), ids)
  }

  /** What the two stores need for the transaction to run without an SQL error. */
  predicate DecisionFits(db: Tables, st: Stores, decisao: string)
    requires st.main in db && Target(st, decisao) in db
  {
    var tcols := db[Target(st, decisao)].cols;
    && DecisionCols(db, st, decisao) != []
    && "ID" in db[st.main].cols
    && (decisao == APROVADO && ("USUARIO_APROVACAO" in tcols || "DATA_APROVACAO" in tcols) ==> "ID" in tcols)
    && (decisao != APROVADO ==>
          "ID" in tcols && "USUARIO_REPROVACAO" in tcols && "DATA_REPROVACAO" in tcols && "MOTIVO" in tcols)
  }

  /** The loop over the IDs that calls the log writer, each call inside its own
      `try` whose exception is swallowed. */
  method CollectLogs(items: Table, st: Stores, decisao: string, obs: Value, user: Actor, ids: seq<int>)
    returns (logs: seq<LogCall>)
    ensures logs == DecisionLogs(items, st, decisao, obs, user, ids)
  {
    logs := [];
    var i := 0;
    while i < |ids|
      invariant 0 <= i <= |ids|
      invariant logs == DecisionLogs(items, st, decisao, obs, user, ids[..i])
    {
      assert DecisionLogs(items, st, decisao, obs, user, ids[..i + 1])
          == DecisionLogs(items, st, decisao, obs, user, ids[..i]) + LogFor(items, st, decisao, obs, user, ids[i]);
      logs := logs + LogFor(items, st, decisao, obs, user, ids[i]);
      i := i + 1;
    }
    assert ids[..|ids|] == ids;
  }

  /** `apply_decision` with its stores read. `now` stands for CURRENT_TIMESTAMP();
      `faults` are the statement positions at which the session raises. */
  method ApplyDecision(db: Db, st: Stores, items: Table, user: Actor, ids: seq<int>, decisao: string,
                       obs: Value, now: Value, faults: set<nat>)
    returns (logs: seq<LogCall>, outcome: Outcome)
    modifies db
    ensures outcome == Skipped <==> ids == []
    ensures outcome == Crashed <==> ids != [] && !(st.main in old(db.tables) && Target(st, decisao) in old(db.tables))
    ensures outcome.Skipped? || outcome.Crashed? ==> logs == [] && db.tables == old(db.tables)
    ensures outcome.Committed? || outcome.RolledBack? ==>
      && st.main in old(db.tables) && Target(st, decisao) in old(db.tables)
      && logs == DecisionLogs(items, st, decisao, obs, user, ids)
      && var plan := DecisionPlan(old(db.tables), st, decisao, user, obs, now, ids);
      && (outcome.Committed? <==> FaultFree(|plan|, faults) && RunAll(old(db.tables), plan).Ok?)
      && (outcome.Committed? ==> db.tables == RunAll(old(db.tables), plan).value)
      && (outcome.RolledBack? ==> db.tables == old(db.tables))
  {
    logs := [];
    if ids == [] {
      return logs, Skipped;
    }
    // reading the schemas raises outside the try when a store is missing
    if !(st.main in db.tables && Target(st, decisao) in db.tables) {
      return logs, Crashed;
    }
    var plan := DecisionPlan(db.tables, st, decisao, user, obs, now, ids);
    logs := CollectLogs(items, st, decisao, obs, user, ids);
    var ok := db.RunTransaction(plan, faults);
    outcome := if ok then Committed else RolledBack;
  }

  /** The stores after a committed decision. */
  function DecisionResult(db: Tables, st: Stores, decisao: string, user: Actor, obs: Value, now: Value, ids: seq<int>): Tables
    requires st.main in db && Target(st, decisao) in db
  {
    var t := Target(st, decisao);
    MoveResult(db, st.main, t, DecisionCols(db, st, decisao), DecisionStamps(db[t].cols, decisao, user, obs, now), ids)
  }

  /** The transaction commits (barring faults) exactly when the stores fit, and then it
      is the generic move from the pending store to the decision's store. */
  lemma DecisionMoves(db: Tables, st: Stores, decisao: string, user: Actor, obs: Value, now: Value, ids: seq<int>)
    requires Distinct(st) && st.main in db && Target(st, decisao) in db
    ensures var plan := DecisionPlan(db, st, decisao, user, obs, now, ids);
      && (RunAll(db, plan).Ok? <==> DecisionFits(db, st, decisao))
      && (RunAll(db, plan).Ok? ==> RunAll(db, plan).value == DecisionResult(db, st, decisao, user, obs, now, ids))
  {
    var t := Target(st, decisao);
    var stamps := DecisionStamps(db[t].cols, decisao, user, obs, now);
    MoveOutcome(db, st.main, t, DecisionCols(db, st, decisao), stamps, ids);
    StampsFit(db[t].cols, decisao, user, obs, now);
  }

  lemma StampsFit(tcols: seq<string>, decisao: string, user: Actor, obs: Value, now: Value)
    ensures var stamps := DecisionStamps(tcols, decisao, user, obs, now);
      && (stamps != [] <==> decisao != APROVADO || "USUARIO_APROVACAO" in tcols || "DATA_APROVACAO" in tcols)
      && (SetsFit(stamps, tcols) <==>
            (decisao != APROVADO ==> "USUARIO_REPROVACAO" in tcols && "DATA_REPROVACAO" in tcols && "MOTIVO" in tcols))
  {
    var stamps := DecisionStamps(tcols, decisao, user, obs, now);
    if decisao != APROVADO {
      assert stamps[0].0 == "USUARIO_REPROVACAO" && stamps[1].0 == "DATA_REPROVACAO" && stamps[2].0 == "MOTIVO";
    }
  }

  /** The copied columns are the target's columns that the pending store has, in the
      target's order. */
  lemma DecisionColsShared(db: Tables, st: Stores, decisao: string, c: string)
    requires st.main in db && Target(st, decisao) in db
    ensures c in DecisionCols(db, st, decisao) <==> c in db[Target(st, decisao)].cols && c in db[st.main].cols
  {
  }

  lemma StampsKeepId(targetCols: seq<string>, decisao: string, user: Actor, obs: Value, now: Value)
    ensures "ID" !in SetCols(DecisionStamps(targetCols, decisao, user, obs, now))
  {
    var stamps := DecisionStamps(targetCols, decisao, user, obs, now);
    assert forall k :: 0 <= k < |stamps| ==> stamps[k].0 != "ID";
  }

  /** After a rejection every correction row of a selected ID carries the rejecting
      user's name, the time and the reason. */
  lemma RejectionStamped(db: Tables, st: Stores, decisao: string, user: Actor, obs: Value, now: Value, ids: seq<int>, y: Row)
    requires st.main in db && st.cor in db && st.main != st.cor && decisao != APROVADO
    requires y in DecisionResult(db, st, decisao, user, obs, now, ids)[st.cor].rows
    requires Selected(y, ids)
    ensures Get(y, "USUARIO_REPROVACAO") == SqlStrValue(user.name)
    ensures Get(y, "DATA_REPROVACAO") == now
    ensures Get(y, "MOTIVO") == SqlStrValue(obs)
  {
    var cols := DecisionCols(db, st, decisao);
    var stamps := DecisionStamps(db[st.cor].cols, decisao, user, obs, now);
    StampsKeepId(db[st.cor].cols, decisao, user, obs, now);
    StampedRow(db, st.main, st.cor, cols, stamps, ids, y, 0);
    StampedRow(db, st.main, st.cor, cols, stamps, ids, y, 1);
    StampedRow(db, st.main, st.cor, cols, stamps, ids, y, 2);
  }

  /** After an approval every approved row of a selected ID carries the approving
      user's name, where the store has that column, and the time, where it has that one. */
  lemma ApprovalStamped(db: Tables, st: Stores, user: Actor, obs: Value, now: Value, ids: seq<int>, y: Row)
    requires st.main in db && st.apr in db && st.main != st.apr
    requires y in DecisionResult(db, st, APROVADO, user, obs, now, ids)[st.apr].rows
    requires Selected(y, ids)
    ensures "USUARIO_APROVACAO" in db[st.apr].cols ==> Get(y, "USUARIO_APROVACAO") == SqlStrValue(user.name)
    ensures "DATA_APROVACAO" in db[st.apr].cols ==> Get(y, "DATA_APROVACAO") == now
  {
    var tcols := db[st.apr].cols;
    var cols := DecisionCols(db, st, APROVADO);
    var stamps := DecisionStamps(tcols, APROVADO, user, obs, now);
    StampsKeepId(tcols, APROVADO, user, obs, now);
    if "USUARIO_APROVACAO" in tcols {
      assert stamps[0] == ("USUARIO_APROVACAO", Lit(SqlStrValue(user.name)));
      StampedRow(db, st.main, st.apr, cols, stamps, ids, y, 0);
    }
    if "DATA_APROVACAO" in tcols {
      assert stamps[|stamps| - 1] == ("DATA_APROVACAO", Lit(now));
      StampedRow(db, st.main, st.apr, cols, stamps, ids, y, |stamps| - 1);
    }
  }

  /** A decision leaves no selected row in the pending store, puts as many rows into
      the decision's store as it took out, and leaves the third store as it was. */
  lemma DecisionConserves(db: Tables, st: Stores, decisao: string, user: Actor, obs: Value, now: Value, ids: seq<int>, r: Row)
    requires Distinct(st) && st.main in db && st.apr in db && st.cor in db
    ensures var after := DecisionResult(db, st, decisao, user, obs, now, ids);
      var t := Target(st, decisao);
      var other := if decisao == APROVADO then st.cor else st.apr;
      && |after[st.main].rows| + |after[t].rows| == |db[st.main].rows| + |db[t].rows|
      && |after[t].rows| == |db[t].rows| + |Matching(db[st.main].rows, IdIn(ids))|
      && (r in after[st.main].rows <==> r in db[st.main].rows && !Selected(r, ids))
      && after[other] == db[other]
  {
    var t := Target(st, decisao);
    var cols := DecisionCols(db, st, decisao);
    var stamps := DecisionStamps(db[t].cols, decisao, user, obs, now);
    MoveConserves(db, st.main, t, cols, stamps, ids);
    MoveEmptiesSource(db, st.main, t, cols, stamps, ids, r);
  }

  /** An ID that neither the pending store nor the decision's store carries is ignored. */
  lemma DecisionIgnoresUnknownId(db: Tables, st: Stores, decisao: string, user: Actor, obs: Value, now: Value, ids: seq<int>, x: int)
    requires st.main in db && Target(st, decisao) in db
    requires forall r :: r in db[st.main].rows ==> !SqlEq(Get(r, "ID"), VInt(x))
    requires forall r :: r in db[Target(st, decisao)].rows ==> !SqlEq(Get(r, "ID"), VInt(x))
    ensures DecisionResult(db, st, decisao, user, obs, now, ids + [x]) == DecisionResult(db, st, decisao, user, obs, now, ids)
  {
    var t := Target(st, decisao);
    MoveIgnoresUnknownId(db, st.main, t, DecisionCols(db, st, decisao), DecisionStamps(db[t].cols, decisao, user, obs, now), ids, x);
  }

  /** When every item sits in one store only and both stores carry ID, a decision keeps it so. */
  lemma DecisionKeepsDisjoint(db: Tables, st: Stores, decisao: string, user: Actor, obs: Value, now: Value, ids: seq<int>)
    requires Distinct(st) && st.main in db && st.apr in db && st.cor in db
    requires "ID" in db[st.main].cols && "ID" in db[Target(st, decisao)].cols
    requires IdsDisjoint(db[st.main].rows, db[st.apr].rows)
    requires IdsDisjoint(db[st.main].rows, db[st.cor].rows)
    requires IdsDisjoint(db[st.apr].rows, db[st.cor].rows)
    ensures var after := DecisionResult(db, st, decisao, user, obs, now, ids);
      && IdsDisjoint(after[st.main].rows, after[st.apr].rows)
      && IdsDisjoint(after[st.main].rows, after[st.cor].rows)
      && IdsDisjoint(after[st.apr].rows, after[st.cor].rows)
  {
    var t := Target(st, decisao);
    var cols := DecisionCols(db, st, decisao);
    var stamps := DecisionStamps(db[t].cols, decisao, user, obs, now);
    StampsKeepId(db[t].cols, decisao, user, obs, now);
    if decisao == APROVADO {
      MoveKeepsDisjoint(db, st.main, st.apr, st.cor, cols, stamps, ids);
    } else {
      IdsDisjointSym(db[st.apr].rows, db[st.cor].rows);
      MoveKeepsDisjoint(db, st.main, st.cor, st.apr, cols, stamps, ids);
      var after := MoveResult(db, st.main, st.cor, cols, stamps, ids);
      IdsDisjointSym(after[st.cor].rows, after[st.apr].rows);
    }
  }

  // ---------------------------------------------------------------------------
  // Rebuilding DESCRICAO

  /** `desc is None or str(desc).strip() == ""` */
  predicate NoDesc(v: Value) {
    v == VNull || Strip(PyStr(v)) == ""
  }

  /** The mask of rows whose DESCRICAO is replaced: blank as text, or null. */
  predicate DescBlank(v: Value) {
    Strip(PyStr(v)) == "" || IsNa(v)
  }

  /** `_build_desc(row)`: the values of ESPECIFICACAO for a missing description when the
      row has that column, the description otherwise. `None` where `extrair_valores`
      raises on a truthy ESPECIFICACAO that is not text. */
  function BuildDesc(r: Row): (d: Option<Value>)
    ensures NoDesc(Get(r, "DESCRICAO")) && "ESPECIFICACAO" in r && r["ESPECIFICACAO"].VStr? ==>
      d == Some(VStr(ValoresText(Some(r["ESPECIFICACAO"].s))))
    ensures !(NoDesc(Get(r, "DESCRICAO")) && "ESPECIFICACAO" in r) ==>
      d == Some(if Get(r, "DESCRICAO") == VNull then VStr("") else Get(r, "DESCRICAO"))
    ensures d.None? <==>
      NoDesc(Get(r, "DESCRICAO")) && "ESPECIFICACAO" in r && Truthy(r["ESPECIFICACAO"]) && !r["ESPECIFICACAO"].VStr?
  {
    var desc := Get(r, "DESCRICAO");
    if NoDesc(desc) && "ESPECIFICACAO" in r then
      var e := r["ESPECIFICACAO"];
      if !Truthy(e) then Some(VStr(""))
      else if e.VStr? then Some(VStr(ValoresText(Some(e.s))))
      else None
    else Some(if desc == VNull then VStr("") else desc)
  }

  /** The frame's columns once `_recalc_sinonimo_df_inplace` has added DESCRICAO. */
  function WithDescColumn(cols: seq<string>): seq<string> {
    if "DESCRICAO" in cols then cols else cols + ["DESCRICAO"]
  }

  /** A row once a missing DESCRICAO column has been added as `""`. */
  function WithDesc(r: Row, cols: seq<string>): Row {
    if "DESCRICAO" in cols then r else r["DESCRICAO" := VStr("")]
  }

  /** One row after the masked assignment, when no row raised. */
  function RecalcRow(r: Row): Row {
    if DescBlank(Get(r, "DESCRICAO")) && BuildDesc(r).Some? then r["DESCRICAO" := BuildDesc(r).value] else r
  }

  /** The DESCRICAO part of `_recalc_sinonimo_df_inplace` on the frame's rows: every
      row's description is computed first (one failure aborts the assignment), then
      written to the rows whose DESCRICAO is blank or null. */
  method RecalcDescricao(cols: seq<string>, rows: array<Row>) returns (newCols: seq<string>, raised: bool)
    modifies rows
    ensures newCols == WithDescColumn(cols)
    ensures raised <==> exists i :: 0 <= i < rows.Length && BuildDesc(WithDesc(old(rows[i]), cols)).None?
    ensures forall i :: 0 <= i < rows.Length ==>
      rows[i] == if raised then WithDesc(old(rows[i]), cols) else RecalcRow(WithDesc(old(rows[i]), cols))
  {
    newCols := WithDescColumn(cols);
    AddDescColumn(cols, rows);
    var outs;
    outs, raised := NewDescs(rows[..]);
    if !raised {
      forall j | 0 <= j < rows.Length && DescBlank(Get(rows[j], "DESCRICAO")) {
        rows[j] := rows[j]["DESCRICAO" := outs[j]];
      }
    }
  }

  /** `df["DESCRICAO"] = ""` when the frame has no such column. */
  method AddDescColumn(cols: seq<string>, rows: array<Row>)
    modifies rows
    ensures forall i :: 0 <= i < rows.Length ==> rows[i] == WithDesc(old(rows[i]), cols)
  {
    if "DESCRICAO" !in cols {
      forall i | 0 <= i < rows.Length {
        rows[i] := rows[i]["DESCRICAO" := VStr("")];
      }
    }
  }

  /** The `df.apply` pass: each row's new description, stopping at the first row that raises. */
  method NewDescs(rows: seq<Row>) returns (outs: seq<Value>, raised: bool)
    ensures raised <==> exists i :: 0 <= i < |rows| && BuildDesc(rows[i]).None?
    ensures !raised ==> |outs| == |rows| && forall i :: 0 <= i < |rows| ==> BuildDesc(rows[i]) == Some(outs[i])
  {
    outs := [];
    var i := 0;
    while i < |rows|
      invariant 0 <= i <= |rows| && |outs| == i
      invariant forall j :: 0 <= j < i ==> BuildDesc(rows[j]) == Some(outs[j])
    {
      var d := BuildDesc(rows[i]);
      if d.None? {
        return outs, true;
      }
      outs := outs + [d.value];
      i := i + 1;
    }
    raised := false;
  }

  /** Only DESCRICAO changes, and only where it was blank or null. */
  lemma RecalcOnlyBlank(r: Row, c: string)
    ensures c != "DESCRICAO" ==> (c in RecalcRow(r) <==> c in r) && Get(RecalcRow(r), c) == Get(r, c)
    ensures !DescBlank(Get(r, "DESCRICAO")) ==> RecalcRow(r) == r
  {
  }

  /** A blank description over a well-formed `"K1: V1; K2: V2"` specification becomes
      `"V1 V2"`. */
  lemma RecalcFromSpec(r: Row, ps: seq<Match>)
    requires Get(r, "DESCRICAO") == VNull || Get(r, "DESCRICAO") == VStr("")
    requires "ESPECIFICACAO" in r && r["ESPECIFICACAO"] == VStr(FormatSpec(ps))
    requires WellFormed(ps)
    ensures Get(RecalcRow(r), "DESCRICAO") == VStr(Join(Values(ps), " "))
  {
    var d := Get(r, "DESCRICAO");
    assert PyStr(d) == "None" || PyStr(d) == "";
    assert Strip("") == "";
    assert NoDesc(d) && DescBlank(d);
    var b := BuildDesc(r);
    assert b == Some(VStr(ValoresText(Some(FormatSpec(ps)))));
    ExtrairWellFormed(ps);
    assert RecalcRow(r) == r["DESCRICAO" := b.value];
  }

  /** Rebuilding the descriptions twice is rebuilding them once. */
  lemma RecalcIdempotent(r: Row)
    ensures RecalcRow(RecalcRow(r)) == RecalcRow(r)
  {
    if DescBlank(Get(r, "DESCRICAO")) && BuildDesc(r).Some? {
      var r1 := RecalcRow(r);
      assert Get(r1, "DESCRICAO") == BuildDesc(r).value;
      if DescBlank(BuildDesc(r).value) {
        assert r1 - {"DESCRICAO"} == r - {"DESCRICAO"};
        assert BuildDesc(r1) == BuildDesc(r);
      }
    }
  }
}
