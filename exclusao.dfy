/** The removal page: the catalogue rows ticked in the editor are copied whole into
    the removed-items table, logged with a reason, the time and the user, and
    deleted from the catalogue, all in one transaction; a second tab lists the
    removed items with their latest log entry. */
module Exclusao {
  import opened Wrappers
  import opened Text
  import opened Cells
  import opened SqlText
  import opened Store
  import opened Columns

  /** The catalogue (the approved table), the removed items and the removal log. */
  datatype RemovalStores = RemovalStores(cat: string, rmv: string, log: string)

  predicate Distinct(st: RemovalStores) {
    st.cat != st.rmv && st.cat != st.log && st.rmv != st.log
  }

  // ---------------------------------------------------------------------------
  // Selection

  /** A row of the editor whose `REMOVER` box is ticked and whose ID is present. */
  predicate Ticked(r: Row) {
    PyEq(Get(r, "REMOVER"), VBool(true)) && !IsNa(Get(r, "ID"))
  }

  /** `edited.loc[edited["REMOVER"] == True, "ID"].dropna()`, in editor order. */
  function TickedIds(rows: seq<Row>): (vs: seq<Value>)
    ensures |vs| <= |rows|
    ensures forall k :: 0 <= k < |vs| ==> !IsNa(vs[k])
    decreases |rows|
  {
    if rows == [] then []
    else
      var last := rows[|rows| - 1];
      TickedIds(rows[..|rows| - 1]) + (if Ticked(last) then [Get(last, "ID")] else [])
  }

  /** The IDs to remove; the page stops when the editor has no ID column. */
  function ToRemove(edited: Table): Option<seq<Value>> {
    if "ID" !in edited.cols then None else Some(TickedIds(edited.rows))
  }

  /** The list holds the IDs of exactly the ticked rows. */
  lemma {:induction false} TickedIdsMember(rows: seq<Row>, v: Value)
    ensures v in TickedIds(rows) <==> exists r :: r in rows && Ticked(r) && Get(r, "ID") == v
    decreases |rows|
  {
    if rows != [] {
      var init := rows[..|rows| - 1];
      var last := rows[|rows| - 1];
      TickedIdsMember(init, v);
      assert rows == init + [last];
      if exists r :: r in rows && Ticked(r) && Get(r, "ID") == v {
        var r :| r in rows && Ticked(r) && Get(r, "ID") == v;
        if r != last {
          assert r in init;
        }
      }
    }
  }

  /** `confirm.strip().upper() == "REMOVER" and len(to_remove) > 0`: the button is enabled. */
  predicate CanRun(confirm: string, toRemove: seq<Value>) {
    Upper(Strip(confirm)) == "REMOVER" && |toRemove| > 0
  }

  lemma UpperKeepsSpace(s: string, i: nat)
    requires i < |s|
    ensures IsSpace(Upper(s)[i]) <==> IsSpace(s[i])
  {
  }

  /** The confirmation is read only through its trimmed, upper-cased text: typing it in
      any case, with blanks around, enables the button just as "REMOVER" does. */
  lemma CanRunNormalised(confirm: string, toRemove: seq<Value>)
    ensures CanRun(confirm, toRemove) <==> CanRun(Upper(Strip(confirm)), toRemove)
  {
    var t := Strip(confirm);
    var u := Upper(t);
    if t != [] {
      var l := TrimLeft(confirm);
      TrimRightPrefix(l);
      assert t == l[..|t|];
      UpperKeepsSpace(t, 0);
      UpperKeepsSpace(t, |t| - 1);
    }
    StripNoEnds(u);
    UpperIdempotent(t);
  }

  /** The IDs that `int(x)` accepts, in order; the others are skipped. */
  function ValidIds(xs: seq<Value>): (ids: seq<int>)
    ensures |ids| <= |xs|
    decreases |xs|
  {
    if xs == [] then []
    else
      var p := PyInt(xs[|xs| - 1]);
      ValidIds(xs[..|xs| - 1]) + (if p.Some? then [p.value] else [])
  }

  /** The `try: ids.append(int(x)) except: pass` loop. */
  method ParseIds(xs: seq<Value>) returns (ids: seq<int>)
    ensures ids == ValidIds(xs)
  {
    ids := [];
    var i := 0;
    while i < |xs|
      invariant 0 <= i <= |xs|
      invariant ids == ValidIds(xs[..i])
    {
      assert xs[..i + 1][..i] == xs[..i];
      var p := PyInt(xs[i]);
      if p.Some? {
        ids := ids + [p.value];
      }
      i := i + 1;
    }
    assert xs[..i] == xs;
  }

  /** An ID is kept exactly when some selected value converts to it. */
  lemma {:induction false} ValidIdsMember(xs: seq<Value>, x: int)
    ensures x in ValidIds(xs) <==> exists k :: 0 <= k < |xs| && PyInt(xs[k]) == Some(x)
    decreases |xs|
  {
    if xs != [] {
      var init := xs[..|xs| - 1];
      ValidIdsMember(init, x);
      CarriesIdSnoc(xs, PyInt, x);
    }
  }

  /** No ID is left exactly when no selected value converts. */
  lemma ValidIdsEmpty(xs: seq<Value>)
    ensures ValidIds(xs) == [] <==> forall k :: 0 <= k < |xs| ==> PyInt(xs[k]).None?
  {
    if ValidIds(xs) != [] {
      ValidIdsMember(xs, ValidIds(xs)[0]);
    }
    if exists k :: 0 <= k < |xs| && PyInt(xs[k]).Some? {
      var k :| 0 <= k < |xs| && PyInt(xs[k]).Some?;
      ValidIdsMember(xs, PyInt(xs[k]).value);
    }
  }

  // ---------------------------------------------------------------------------
  // The removal transaction

  /** `u.get("username", "admin")` */
  function RemovalUser(user: Row): Value {
    if "username" in user then user["username"] else VStr("admin")
  }

  /** The text a `'{_esc(v)}'` literal holds: `v or ""`. */
  function EscText(v: Value): string {
    if Truthy(v) && v.VStr? then v.s else ""
  }

  /** The quoted literal the page writes for `_esc(v)` reads back as the text of `v`. */
  lemma EscLiteral(v: Value)
    requires Esc(v).Some?
    ensures ReadStd(Quote(Esc(v).value)) == Some(VStr(EscText(v)))
  {
    var t := Quote(Esc(v).value);
    assert t[1..|t| - 1] == Esc(v).value;
    assert t[0] == '\'';
  }

  /** A reason is a string, so `_esc` never fails on it and keeps it as it is. */
  lemma ReasonLiteral(motivo: string)
    ensures Esc(VStr(motivo)).Some? && EscText(VStr(motivo)) == motivo
  {
  }

  const LOG_COLS: seq<string> := ["ID", "CODIGO_PRODUTO", "INSUMO", "MOTIVO", "DATA_REMOCAO", "USUARIO_REMOCAO"]

  /** A catalogue column, or `CAST(NULL AS STRING)` when the catalogue lacks it. */
  function ColOrNull(catCols: seq<string>, c: string): Expr {
    if c in catCols then Col(c) else Lit(VNull)
  }

  /** The SELECT list of the log INSERT. */
  function LogSelect(catCols: seq<string>, motivo: string, now: string, usuario: Value): seq<Expr> {
    [Col("ID"), ColOrNull(catCols, "CODIGO_PRODUTO"), ColOrNull(catCols, "INSUMO"),
     Lit(VStr(motivo)), Lit(VStr(now)), Lit(VStr(EscText(usuario)))]
  }

  /** Copy the selected rows whole, log them, delete them. */
  function RemovalPlan(catCols: seq<string>, st: RemovalStores, ids: seq<int>, motivo: string, now: string, usuario: Value): seq<Stmt> {
    [InsertSelectAll(st.rmv, st.cat, IdIn(ids)),
     InsertSelect(st.log, LOG_COLS, st.cat, LogSelect(catCols, motivo, now, usuario), IdIn(ids)),
     Delete(st.cat, IdIn(ids))]
  }

  /** What the three statements need of the tables. */
  predicate RemovalFits(db: Tables, st: RemovalStores) {
    && st.cat in db && st.rmv in db && st.log in db
    && |db[st.rmv].cols| == |db[st.cat].cols|
    && "ID" in db[st.cat].cols
    && AllIn(LOG_COLS, db[st.log].cols)
  }

  /** The catalogue rows the IDs select. */
  function Chosen(db: Tables, st: RemovalStores, ids: seq<int>): seq<Row>
    requires st.cat in db
  {
    Matching(db[st.cat].rows, IdIn(ids))
  }

  function ArchivedRows(db: Tables, st: RemovalStores, ids: seq<int>): seq<Row>
    requires st.cat in db && st.rmv in db && |db[st.rmv].cols| == |db[st.cat].cols|
  {
    Positional(Chosen(db, st, ids), db[st.rmv].cols, db[st.cat].cols)
  }

  function LogRows(db: Tables, st: RemovalStores, ids: seq<int>, motivo: string, now: string, usuario: Value): seq<Row>
    requires st.cat in db && st.log in db
  {
    Projected(Chosen(db, st, ids), db[st.log].cols, LOG_COLS, LogSelect(db[st.cat].cols, motivo, now, usuario))
  }

  /** The tables after a committed removal. */
  function RemovalResult(db: Tables, st: RemovalStores, ids: seq<int>, motivo: string, now: string, usuario: Value): Tables
    requires st.cat in db && st.rmv in db && st.log in db && |db[st.rmv].cols| == |db[st.cat].cols|
  {
    db[st.rmv := Append(db[st.rmv], ArchivedRows(db, st, ids))]
      [st.log := Append(db[st.log], LogRows(db, st, ids, motivo, now, usuario))]
      [st.cat := Table(db[st.cat].cols, Remaining(db[st.cat].rows, IdIn(ids)))]
  }

  lemma LogSelectFits(catCols: seq<string>, motivo: string, now: string, usuario: Value)
    requires "ID" in catCols
    ensures SelectFits(LogSelect(catCols, motivo, now, usuario), catCols)
  {
  }

  /** The three statements run exactly when the tables fit them, and then leave the
      removal's result. */
  lemma RemovalOutcome(db: Tables, st: RemovalStores, ids: seq<int>, motivo: string, now: string, usuario: Value)
    requires Distinct(st) && st.cat in db
    ensures var plan := RemovalPlan(db[st.cat].cols, st, ids, motivo, now, usuario);
      && (RunAll(db, plan).Ok? <==> RemovalFits(db, st))
      && (RemovalFits(db, st) ==> RunAll(db, plan).value == RemovalResult(db, st, ids, motivo, now, usuario))
  {
    var plan := RemovalPlan(db[st.cat].cols, st, ids, motivo, now, usuario);
    RunAllTwo(db, plan[0], plan[1]);
    RunAllSnoc(db, [plan[0], plan[1]], plan[2]);
    assert [plan[0], plan[1]] + [plan[2]] == plan;
    if "ID" in db[st.cat].cols {
      LogSelectFits(db[st.cat].cols, motivo, now, usuario);
    }
    if RemovalFits(db, st) {
      var d1 := Exec(db, plan[0]).value;
      assert d1 == db[st.rmv := Append(db[st.rmv], ArchivedRows(db, st, ids))];
      var d2 := Exec(d1, plan[1]).value;
      assert d2 == d1[st.log := Append(db[st.log], LogRows(db, st, ids, motivo, now, usuario))];
    }
  }

  /** The catalogue keeps exactly its unselected rows. */
  lemma RemovalEmptiesCatalog(db: Tables, st: RemovalStores, ids: seq<int>, motivo: string, now: string, usuario: Value, r: Row)
    requires Distinct(st) && RemovalFits(db, st)
    ensures r in RemovalResult(db, st, ids, motivo, now, usuario)[st.cat].rows <==> r in db[st.cat].rows && !Selected(r, ids)
  {
    FilterMember(db[st.cat].rows, IdIn(ids), false, r);
  }

  /** Nothing but the three tables changes, no table changes its columns, the old removed
      and log rows stay first, and one removed row and one log row are added for each
      catalogue row deleted. */
  lemma RemovalFrame(db: Tables, st: RemovalStores, ids: seq<int>, motivo: string, now: string, usuario: Value)
    requires Distinct(st) && RemovalFits(db, st)
    ensures var res := RemovalResult(db, st, ids, motivo, now, usuario);
      && res.Keys == db.Keys
      && (forall n :: n in db && n != st.cat && n != st.rmv && n != st.log ==> res[n] == db[n])
      && (forall n :: n in db ==> res[n].cols == db[n].cols)
      && res[st.rmv].rows[..|db[st.rmv].rows|] == db[st.rmv].rows
      && res[st.log].rows[..|db[st.log].rows|] == db[st.log].rows
      && |res[st.rmv].rows| == |db[st.rmv].rows| + |Chosen(db, st, ids)|
      && |res[st.log].rows| == |db[st.log].rows| + |Chosen(db, st, ids)|
      && |res[st.cat].rows| + |Chosen(db, st, ids)| == |db[st.cat].rows|
      && multiset(res[st.cat].rows) + multiset(Chosen(db, st, ids)) == multiset(db[st.cat].rows)
  {
    FilterSplit(db[st.cat].rows, IdIn(ids));
  }

  /** A selected catalogue row has a copy among the removed rows with each of its
      cells in the removed table's column at the same position. */
  lemma RemovalArchives(db: Tables, st: RemovalStores, ids: seq<int>, motivo: string, now: string, usuario: Value, j: nat)
    requires Distinct(st) && RemovalFits(db, st) && NoDup(db[st.rmv].cols)
    requires j < |db[st.cat].rows| && Selected(db[st.cat].rows[j], ids)
    ensures exists y :: && y in RemovalResult(db, st, ids, motivo, now, usuario)[st.rmv].rows
                        && forall k :: 0 <= k < |db[st.cat].cols| ==> Get(y, db[st.rmv].cols[k]) == Get(db[st.cat].rows[j], db[st.cat].cols[k])
  {
    var y := ArchiveCopy(db, st, ids, j);
    RemovalAppends(db, st, ids, motivo, now, usuario);
    assert y in db[st.rmv].rows + ArchivedRows(db, st, ids);
  }

  lemma ArchiveCopy(db: Tables, st: RemovalStores, ids: seq<int>, j: nat) returns (y: Row)
    requires RemovalFits(db, st) && NoDup(db[st.rmv].cols)
    requires j < |db[st.cat].rows| && Selected(db[st.cat].rows[j], ids)
    ensures y in ArchivedRows(db, st, ids)
    ensures forall k :: 0 <= k < |db[st.cat].cols| ==> Get(y, db[st.rmv].cols[k]) == Get(db[st.cat].rows[j], db[st.cat].cols[k])
  {
    var i := MatchingIndex(db[st.cat].rows, ids, j);
    var tcols := db[st.rmv].cols;
    var scols := db[st.cat].cols;
    var src := Chosen(db, st, ids);
    var vals := seq(|scols|, k requires 0 <= k < |scols| => Get(src[i], scols[k]));
    y := ArchivedRows(db, st, ids)[i];
    assert y == NewRow(tcols, tcols, vals);
    forall k | 0 <= k < |scols| ensures Get(y, tcols[k]) == Get(db[st.cat].rows[j], scols[k]) {
      ListedValueAt(tcols, vals, k);
    }
  }

  /** The log row of a selected catalogue row: its ID, its code and name where the
      catalogue has those columns (NULL otherwise), the reason, the time and the user. */
  predicate LogEntry(l: Row, r: Row, catCols: seq<string>, motivo: string, now: string, usuario: Value) {
    && Get(l, "ID") == Get(r, "ID")
    && Get(l, "CODIGO_PRODUTO") == (if "CODIGO_PRODUTO" in catCols then Get(r, "CODIGO_PRODUTO") else VNull)
    && Get(l, "INSUMO") == (if "INSUMO" in catCols then Get(r, "INSUMO") else VNull)
    && Get(l, "MOTIVO") == VStr(motivo)
    && Get(l, "DATA_REMOCAO") == VStr(now)
    && Get(l, "USUARIO_REMOCAO") == VStr(EscText(usuario))
  }

  /** Every deleted catalogue row is logged. */
  lemma RemovalLogs(db: Tables, st: RemovalStores, ids: seq<int>, motivo: string, now: string, usuario: Value, j: nat)
    requires Distinct(st) && RemovalFits(db, st)
    requires j < |db[st.cat].rows| && Selected(db[st.cat].rows[j], ids)
    ensures exists l :: && l in RemovalResult(db, st, ids, motivo, now, usuario)[st.log].rows
                        && LogEntry(l, db[st.cat].rows[j], db[st.cat].cols, motivo, now, usuario)
  {
    var l := LogCopy(db, st, ids, motivo, now, usuario, j);
    RemovalAppends(db, st, ids, motivo, now, usuario);
    assert l in db[st.log].rows + LogRows(db, st, ids, motivo, now, usuario);
  }

  /** The removed and log tables gain exactly the archived and the log rows. */
  lemma RemovalAppends(db: Tables, st: RemovalStores, ids: seq<int>, motivo: string, now: string, usuario: Value)
    requires Distinct(st) && RemovalFits(db, st)
    ensures RemovalResult(db, st, ids, motivo, now, usuario)[st.rmv].rows == db[st.rmv].rows + ArchivedRows(db, st, ids)
    ensures RemovalResult(db, st, ids, motivo, now, usuario)[st.log].rows == db[st.log].rows + LogRows(db, st, ids, motivo, now, usuario)
  {
  }

  /** The values the log SELECT yields for one catalogue row. */
  function LogValues(catCols: seq<string>, r: Row, motivo: string, now: string, usuario: Value): seq<Value> {
    [Get(r, "ID"),
     if "CODIGO_PRODUTO" in catCols then Get(r, "CODIGO_PRODUTO") else VNull,
     if "INSUMO" in catCols then Get(r, "INSUMO") else VNull,
     VStr(motivo), VStr(now), VStr(EscText(usuario))]
  }

  lemma LogSelectValues(catCols: seq<string>, r: Row, motivo: string, now: string, usuario: Value)
    ensures var select := LogSelect(catCols, motivo, now, usuario);
      seq(|select|, k requires 0 <= k < |select| => Eval(select[k], r)) == LogValues(catCols, r, motivo, now, usuario)
  {
  }

  lemma LogColsDistinct()
    ensures NoDup(LOG_COLS)
  {
  }

  /** A row built over the log columns holds the log values under their names. */
  lemma LogRowEntry(logCols: seq<string>, catCols: seq<string>, r: Row, motivo: string, now: string, usuario: Value)
    requires AllIn(LOG_COLS, logCols)
    ensures LogEntry(NewRow(logCols, LOG_COLS, LogValues(catCols, r, motivo, now, usuario)), r, catCols, motivo, now, usuario)
  {
    var vals := LogValues(catCols, r, motivo, now, usuario);
    LogCell(logCols, vals, 0);
    LogCell(logCols, vals, 1);
    LogCell(logCols, vals, 2);
    LogCell(logCols, vals, 3);
    LogCell(logCols, vals, 4);
    LogCell(logCols, vals, 5);
  }

  /** The k-th log column of such a row holds the k-th value. */
  lemma LogCell(logCols: seq<string>, vals: seq<Value>, k: nat)
    requires AllIn(LOG_COLS, logCols) && |vals| == |LOG_COLS| && k < |LOG_COLS|
    ensures Get(NewRow(logCols, LOG_COLS, vals), LOG_COLS[k]) == vals[k]
  {
    LogColsDistinct();
    ListedValueAt(LOG_COLS, vals, k);
    assert LOG_COLS[k] in LOG_COLS;
  }

  lemma LogCopy(db: Tables, st: RemovalStores, ids: seq<int>, motivo: string, now: string, usuario: Value, j: nat) returns (l: Row)
    requires RemovalFits(db, st)
    requires j < |db[st.cat].rows| && Selected(db[st.cat].rows[j], ids)
    ensures l in LogRows(db, st, ids, motivo, now, usuario)
    ensures LogEntry(l, db[st.cat].rows[j], db[st.cat].cols, motivo, now, usuario)
  {
    var i := MatchingIndex(db[st.cat].rows, ids, j);
    var r := db[st.cat].rows[j];
    LogSelectValues(db[st.cat].cols, r, motivo, now, usuario);
    l := LogRows(db, st, ids, motivo, now, usuario)[i];
    assert l == NewRow(db[st.log].cols, LOG_COLS, LogValues(db[st.cat].cols, r, motivo, now, usuario));
    LogRowEntry(db[st.log].cols, db[st.cat].cols, r, motivo, now, usuario);
  }

  // ---------------------------------------------------------------------------
  // The page action

  /** The button was enabled and pressed, and some selected ID converts to an integer. */
  predicate Requested(edited: Table, confirm: string) {
    && ToRemove(edited).Some?
    && CanRun(confirm, ToRemove(edited).value)
    && ValidIds(ToRemove(edited).value) != []
  }

  function RequestedIds(edited: Table): seq<int>
    requires ToRemove(edited).Some?
  {
    ValidIds(ToRemove(edited).value)
  }

  /** The "Remover selecionados" button. Without an ID column, with the button disabled
      or without a valid ID nothing happens; no signed-in user or a missing catalogue
      ends before BEGIN; a user name `_esc` cannot escape raises inside the
      transaction; otherwise the transaction commits or leaves every table as it was. */
  method RemoveSelected(db: Db, st: RemovalStores, edited: Table, confirm: string, motivo: string,
                        user: Option<Row>, now: string, faults: set<nat>) returns (outcome: Outcome)
    requires Distinct(st)
    modifies db
    ensures outcome == Skipped <==> !Requested(edited, confirm)
    ensures outcome == Crashed <==> Requested(edited, confirm) && (user.None? || st.cat !in old(db.tables))
    ensures outcome == Skipped || outcome == Crashed ==> db.tables == old(db.tables)
    ensures Requested(edited, confirm) && user.Some? && st.cat in old(db.tables) && Esc(RemovalUser(user.value)).None? ==>
      outcome == RolledBack && db.tables == old(db.tables)
    ensures Requested(edited, confirm) && user.Some? && st.cat in old(db.tables) && Esc(RemovalUser(user.value)).Some? ==>
      var plan := RemovalPlan(old(db.tables)[st.cat].cols, st, RequestedIds(edited), motivo, now, RemovalUser(user.value));
      && (outcome == Committed <==> FaultFree(|plan|, faults) && RunAll(old(db.tables), plan).Ok?)
      && (outcome == Committed ==> db.tables == RunAll(old(db.tables), plan).value)
      && (outcome == RolledBack ==> db.tables == old(db.tables))
  {
    var toRemove := ToRemove(edited);
    if toRemove.None? || !CanRun(confirm, toRemove.value) {
      return Skipped;
    }
    var ids := ParseIds(toRemove.value);
    if ids == [] {
      return Skipped;
    }
    if user.None? || st.cat !in db.tables {
      return Crashed;
    }
    var usuario := RemovalUser(user.value);
    if Esc(usuario).None? {
      return RolledBack;
    }
    var plan := RemovalPlan(db.tables[st.cat].cols, st, ids, motivo, now, usuario);
    var ok := db.RunTransaction(plan, faults);
    outcome := if ok then Committed else RolledBack;
  }

  // ---------------------------------------------------------------------------
  // The list of removed items

  /** `a` comes before `b` under `ORDER BY DATA_REMOCAO DESC NULLS LAST`. The stored
      times are `%Y-%m-%d %H:%M:%S` texts, whose order is that of their strings. */
  predicate Later(a: Value, b: Value) {
    !IsNa(a) && (IsNa(b) || Less(PyStr(b), PyStr(a)))
  }

  predicate SameCode(l: Row, code: Value) {
    SqlEq(Get(l, "CODIGO_PRODUTO"), code)
  }

  /** The log row with `row_number() == 1` in the partition of `code`: the most recent
      removal, the first in storage order among equally recent ones. */
  function LatestLog(logs: seq<Row>, code: Value): Option<Row>
    decreases |logs|
  {
    if logs == [] then None
    else
      var rest := LatestLog(logs[1..], code);
      if !SameCode(logs[0], code) then rest
      else if rest.Some? && Later(Get(rest.value, "DATA_REMOCAO"), Get(logs[0], "DATA_REMOCAO")) then rest
      else Some(logs[0])
  }

  lemma NotLaterTransitive(a: Value, b: Value, c: Value)
    requires !Later(a, b) && !Later(b, c)
    ensures !Later(a, c)
  {
    if !IsNa(a) && !IsNa(c) {
      LessTotal(PyStr(a), PyStr(b));
      LessTotal(PyStr(b), PyStr(c));
      if Less(PyStr(c), PyStr(a)) {
        if Less(PyStr(a), PyStr(b)) {
          LessTransitive(PyStr(c), PyStr(a), PyStr(b));
          LessAsymmetric(PyStr(c), PyStr(b));
        } else if PyStr(a) == PyStr(b) {
          LessAsymmetric(PyStr(c), PyStr(b));
        }
      }
    }
  }

  lemma LaterAsymmetric(a: Value, b: Value)
    requires Later(a, b)
    ensures !Later(b, a)
  {
    if !IsNa(b) {
      LessAsymmetric(PyStr(b), PyStr(a));
    }
  }

  /** The chosen log row has the code and no log row of that code is more recent;
      there is none exactly when no log row has the code. */
  lemma {:induction false} LatestLogSpec(logs: seq<Row>, code: Value)
    ensures LatestLog(logs, code).None? <==> forall l :: l in logs ==> !SameCode(l, code)
    ensures LatestLog(logs, code).Some? ==>
      var m := LatestLog(logs, code).value;
      && m in logs && SameCode(m, code)
      && forall l :: l in logs && SameCode(l, code) ==> !Later(Get(l, "DATA_REMOCAO"), Get(m, "DATA_REMOCAO"))
    decreases |logs|
  {
    if logs != [] {
      LatestLogSpec(logs[1..], code);
      assert logs == [logs[0]] + logs[1..];
      var rest := LatestLog(logs[1..], code);
      var h := logs[0];
      if SameCode(h, code) {
        if rest.Some? && Later(Get(rest.value, "DATA_REMOCAO"), Get(h, "DATA_REMOCAO")) {
          LaterAsymmetric(Get(rest.value, "DATA_REMOCAO"), Get(h, "DATA_REMOCAO"));
        } else if rest.Some? {
          forall l | l in logs && SameCode(l, code)
            ensures !Later(Get(l, "DATA_REMOCAO"), Get(h, "DATA_REMOCAO"))
          {
            if l != h {
              assert l in logs[1..];
              NotLaterTransitive(Get(l, "DATA_REMOCAO"), Get(rest.value, "DATA_REMOCAO"), Get(h, "DATA_REMOCAO"));
            } else {
              LessIrreflexive(PyStr(Get(h, "DATA_REMOCAO")));
            }
          }
        } else {
          forall l | l in logs && SameCode(l, code)
            ensures !Later(Get(l, "DATA_REMOCAO"), Get(h, "DATA_REMOCAO"))
          {
            assert l !in logs[1..];
            LessIrreflexive(PyStr(Get(h, "DATA_REMOCAO")));
          }
        }
      }
    }
  }

  const LOG_VIEW: seq<string> := ["MOTIVO_RMV", "DATA_REMOCAO_RMV", "USUARIO_REMOCAO_RMV"]

  /** A removed row with the three log columns of its latest log row, NULL without one. */
  function ListRow(r: Row, latest: Option<Row>): Row {
    var pick := (c: string) => if latest.Some? then Get(latest.value, c) else VNull;
    r["MOTIVO_RMV" := pick("MOTIVO")]["DATA_REMOCAO_RMV" := pick("DATA_REMOCAO")]["USUARIO_REMOCAO_RMV" := pick("USUARIO_REMOCAO")]
  }

  /** The "Lista de Removidos" tab: every removed row, left-joined on CODIGO_PRODUTO
      with the latest log row of its code. Both tables need the code column, and the
      log the three columns read from it. */
  function Listing(rmv: Table, log: Table): (r: Result<Table>)
    ensures r.Ok? <==> "CODIGO_PRODUTO" in rmv.cols && "CODIGO_PRODUTO" in log.cols && AllIn(["MOTIVO", "DATA_REMOCAO", "USUARIO_REMOCAO"], log.cols)
    ensures r.Ok? ==> r.value.cols == rmv.cols + LOG_VIEW && |r.value.rows| == |rmv.rows|
  {
    if "CODIGO_PRODUTO" !in rmv.cols || "CODIGO_PRODUTO" !in log.cols then Err("merge needs CODIGO_PRODUTO in both tables")
    else if !AllIn(["MOTIVO", "DATA_REMOCAO", "USUARIO_REMOCAO"], log.cols) then Err("invalid identifier")
    else Ok(Table(rmv.cols + LOG_VIEW,
      seq(|rmv.rows|, i requires 0 <= i < |rmv.rows| => ListRow(rmv.rows[i], LatestLog(log.rows, Get(rmv.rows[i], "CODIGO_PRODUTO"))))))
  }

  /** Row `i` of the listing is removed row `i` with its cells kept, plus the reason,
      time and user of the latest log row of its code, or NULLs when its code has none. */
  lemma ListingRow(rmv: Table, log: Table, i: nat, c: string)
    requires Listing(rmv, log).Ok? && i < |rmv.rows|
    ensures var out := Listing(rmv, log).value.rows[i];
      var latest := LatestLog(log.rows, Get(rmv.rows[i], "CODIGO_PRODUTO"));
      && (c !in LOG_VIEW ==> Get(out, c) == Get(rmv.rows[i], c))
      && (latest.None? ==> Get(out, "MOTIVO_RMV") == VNull && Get(out, "DATA_REMOCAO_RMV") == VNull && Get(out, "USUARIO_REMOCAO_RMV") == VNull)
      && (latest.Some? ==>
            && Get(out, "MOTIVO_RMV") == Get(latest.value, "MOTIVO")
            && Get(out, "DATA_REMOCAO_RMV") == Get(latest.value, "DATA_REMOCAO")
            && Get(out, "USUARIO_REMOCAO_RMV") == Get(latest.value, "USUARIO_REMOCAO"))
  {
  }
}
