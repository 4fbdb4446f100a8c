/** Filling in INSUMO: the items still waiting for one, the sheet a user uploads
    with the values, and the batch UPDATE that writes the values that changed. */
module Insumo {
  import opened Wrappers
  import opened Text
  import opened Cells
  import opened SqlText
  import opened Store

  // ---------------------------------------------------------------------------
  // The batch update

  /** How `merge(on="ID")` pairs keys: equal values, and a null with a null. */
  predicate KeyEq(a: Value, b: Value) {
    PyEq(a, b) || (IsNa(a) && IsNa(b))
  }

  /** An edited row whose cleaned INSUMO is non-empty and differs from a before-row with
      the same ID. */
  predicate ChangedPair(a: Row, b: Row) {
    && KeyEq(Get(a, "ID"), Get(b, "ID"))
    && CleanText(Get(a, "INSUMO")) != CleanText(Get(b, "INSUMO"))
    && CleanText(Get(a, "INSUMO")) != ""
  }

  /** The changed entries one edited row contributes, one per before-row it pairs with. */
  function PairsOf(a: Row, before: seq<Row>): seq<(Value, string)>
    decreases |before|
  {
    if before == [] then []
    else
      (if ChangedPair(a, before[0]) then [(Get(a, "ID"), CleanText(Get(a, "INSUMO")))] else [])
      + PairsOf(a, before[1..])
  }

  /** The `changed` frame: the inner merge of edited and before rows, in the edited
      rows' order, kept where INSUMO changed and is non-empty. */
  function ChangedRows(after: seq<Row>, before: seq<Row>): seq<(Value, string)>
    decreases |after|
  {
    if after == [] then [] else PairsOf(after[0], before) + ChangedRows(after[1..], before)
  }

  lemma {:induction false} PairsOfMember(a: Row, before: seq<Row>, p: (Value, string))
    ensures p in PairsOf(a, before) <==>
      exists b :: b in before && ChangedPair(a, b) && p == (Get(a, "ID"), CleanText(Get(a, "INSUMO")))
    decreases |before|
  {
    if before != [] {
      PairsOfMember(a, before[1..], p);
      assert before == [before[0]] + before[1..];
    }
  }

  /** An entry is changed iff some edited row and some before row of the same ID have
      different cleaned INSUMO, the edited one non-empty; the entry carries that ID and
      the edited value. */
  lemma {:induction false} ChangedMember(after: seq<Row>, before: seq<Row>, p: (Value, string))
    ensures p in ChangedRows(after, before) <==>
      exists a, b :: a in after && b in before && ChangedPair(a, b) && p == (Get(a, "ID"), CleanText(Get(a, "INSUMO")))
  {
    if p in ChangedRows(after, before) {
      var a, b := ChangedSound(after, before, p);
    }
    if exists a, b :: a in after && b in before && ChangedPair(a, b) && p == (Get(a, "ID"), CleanText(Get(a, "INSUMO"))) {
      var a, b :| a in after && b in before && ChangedPair(a, b) && p == (Get(a, "ID"), CleanText(Get(a, "INSUMO")));
      ChangedComplete(after, before, a, b);
    }
  }

  lemma {:induction false} ChangedSound(after: seq<Row>, before: seq<Row>, p: (Value, string)) returns (a: Row, b: Row)
    requires p in ChangedRows(after, before)
    ensures a in after && b in before && ChangedPair(a, b) && p == (Get(a, "ID"), CleanText(Get(a, "INSUMO")))
    decreases |after|
  {
    PairsOfMember(after[0], before, p);
    if p in PairsOf(after[0], before) {
      a := after[0];
      b :| b in before && ChangedPair(a, b) && p == (Get(a, "ID"), CleanText(Get(a, "INSUMO")));
    } else {
      a, b := ChangedSound(after[1..], before, p);
    }
  }

  lemma {:induction false} ChangedComplete(after: seq<Row>, before: seq<Row>, a: Row, b: Row)
    requires a in after && b in before && ChangedPair(a, b)
    ensures (Get(a, "ID"), CleanText(Get(a, "INSUMO"))) in ChangedRows(after, before)
    decreases |after|
  {
    var p := (Get(a, "ID"), CleanText(Get(a, "INSUMO")));
    if a == after[0] {
      PairsOfMember(a, before, p);
    } else {
      ChangedComplete(after[1..], before, a, b);
    }
  }

  /** `[int(x) for x in xs]`; `None` where one of them raises. */
  function Ints(vs: seq<Value>): (r: Option<seq<int>>)
    ensures r.Some? ==> |r.value| == |vs| && forall i :: 0 <= i < |vs| ==> PyInt(vs[i]) == Some(r.value[i])
    ensures r.None? ==> exists i :: 0 <= i < |vs| && PyInt(vs[i]).None?
    decreases |vs|
  {
    if vs == [] then Some([])
    else match (PyInt(vs[0]), Ints(vs[1..]))
      case (Some(x), Some(xs)) => Some([x] + xs)
      case (None, _) => None
      case (_, None) => assert forall i :: 0 < i < |vs| ==> vs[1..][i - 1] == vs[i]; None
  }

  function EntryIds(changed: seq<(Value, string)>): seq<Value> {
    seq(|changed|, i requires 0 <= i < |changed| => changed[i].0)
  }

  /** `CASE ID WHEN id THEN 'insumo' ... END` */
  function BatchWhens(changed: seq<(Value, string)>, ids: seq<int>): (ws: seq<(int, Value)>)
    requires |ids| == |changed|
    ensures |ws| == |changed| && forall k :: 0 <= k < |changed| ==> ws[k] == (ids[k], VStr(changed[k].1))
  {
    seq(|changed|, k requires 0 <= k < |changed| => (ids[k], VStr(changed[k].1)))
  }

  /** `u.get('name') or u.get('username')` */
  function UserLabel(user: Actor): Value {
    if Truthy(user.name) then user.name else user.username
  }

  /** A table column whose upper-cased name is `name`. */
  predicate HasColumn(cols: seq<string>, name: string) {
    exists c :: c in cols && Upper(c) == name
  }

  function BatchSets(tcols: seq<string>, whens: seq<(int, Value)>, user: Actor, now: Value): seq<(string, Expr)> {
    [("INSUMO", CaseId(whens))]
    + (if HasColumn(tcols, "DATA_ATUALIZACAO") then [("DATA_ATUALIZACAO", Lit(now))] else [])
    + (if HasColumn(tcols, "USUARIO_ATUALIZACAO") then [("USUARIO_ATUALIZACAO", Lit(SqlStrValue(UserLabel(user))))] else [])
  }

  /** What `_persist_insumo_batch` does: return 0 without writing, raise before writing,
      or run one UPDATE and return the number of changed entries. */
  datatype Batch = NoWrite | Raises | Write(stmt: Stmt, count: nat)

  function BatchPlan(db: Tables, table: string, before: Table, after: Table, user: Actor, now: Value): (b: Batch)
    ensures after.rows == [] || "ID" !in after.cols || "INSUMO" !in after.cols ==> b == NoWrite
    ensures b.Write? ==> b.count == |ChangedRows(after.rows, before.rows)| > 0
  {
    if after.rows == [] || "ID" !in after.cols || "INSUMO" !in after.cols then NoWrite
    else if "ID" !in before.cols || "INSUMO" !in before.cols then Raises
    else
      var changed := ChangedRows(after.rows, before.rows);
      if changed == [] then NoWrite
      else if table !in db then Raises
      else match Ints(EntryIds(changed))
        case None => Raises
        case Some(ids) =>
          Write(Update(table, BatchSets(db[table].cols, BatchWhens(changed, ids), user, now), IdIn(ids)), |ids|)
  }

  /** `_persist_insumo_batch(session, table, df_before, df_after)`; `now` stands for
      CURRENT_TIMESTAMP(), and the UPDATE runs on its own, outside a transaction. */
  method PersistInsumoBatch(db: Db, table: string, before: Table, after: Table, user: Actor, now: Value, faults: set<nat>)
    returns (r: Result<nat>)
    modifies db
    ensures var b := BatchPlan(old(db.tables), table, before, after, user, now);
      && (b.NoWrite? ==> r == Ok(0) && db.tables == old(db.tables))
      && (b.Raises? ==> r.Err? && db.tables == old(db.tables))
      && (b.Write? ==>
            && (r.Ok? <==> 0 !in faults && Exec(old(db.tables), b.stmt).Ok?)
            && (r.Ok? ==> r.value == b.count && db.tables == Exec(old(db.tables), b.stmt).value)
            && (r.Err? ==> db.tables == old(db.tables)))
  {
    var b := BatchPlan(db.tables, table, before, after, user, now);
    match b
    case NoWrite =>
      return Ok(0);
    case Raises =>
      return Err("falha ao montar o UPDATE");
    case Write(s, n) =>
      ghost var t0 := db.tables;
      var done := db.RunUntilFailure([s], faults);
      RunAllOne(t0, s);
      if done == 1 {
        assert [s][..1] == [s];
        r := Ok(n);
      } else {
        assert [s][..0] == [];
        r := Err("falha no UPDATE");
      }
  }

  /** A planned write is one UPDATE of the table, the changed entries' IDs parsed. */
  lemma BatchPlanShape(db: Tables, table: string, before: Table, after: Table, user: Actor, now: Value)
    requires BatchPlan(db, table, before, after, user, now).Write?
    ensures var changed := ChangedRows(after.rows, before.rows);
      && table in db && Ints(EntryIds(changed)).Some?
      && BatchPlan(db, table, before, after, user, now).stmt
         == Update(table, BatchSets(db[table].cols, BatchWhens(changed, Ints(EntryIds(changed)).value), user, now),
                   IdIn(Ints(EntryIds(changed)).value))
  {
  }

  /** The SET list assigns INSUMO first and only there. */
  lemma BatchSetsHead(tcols: seq<string>, whens: seq<(int, Value)>, user: Actor, now: Value)
    ensures var sets := BatchSets(tcols, whens, user, now);
      && |sets| >= 1 && sets[0] == ("INSUMO", CaseId(whens))
      && (forall j :: 0 < j < |sets| ==> sets[j].0 != "INSUMO")
  {
    var data: seq<(string, Expr)> := if HasColumn(tcols, "DATA_ATUALIZACAO") then [("DATA_ATUALIZACAO", Lit(now))] else [];
    var usr: seq<(string, Expr)> :=
      if HasColumn(tcols, "USUARIO_ATUALIZACAO") then [("USUARIO_ATUALIZACAO", Lit(SqlStrValue(UserLabel(user))))] else [];
    assert BatchSets(tcols, whens, user, now) == [("INSUMO", CaseId(whens))] + data + usr;
  }

  /** With DATA_ATUALIZACAO in the table, the SET list stamps it second and only there. */
  lemma BatchSetsData(tcols: seq<string>, whens: seq<(int, Value)>, user: Actor, now: Value)
    requires HasColumn(tcols, "DATA_ATUALIZACAO")
    ensures var sets := BatchSets(tcols, whens, user, now);
      |sets| >= 2 && sets[1] == ("DATA_ATUALIZACAO", Lit(now)) && forall j :: 1 < j < |sets| ==> sets[j].0 != "DATA_ATUALIZACAO"
  {
    var usr: seq<(string, Expr)> :=
      if HasColumn(tcols, "USUARIO_ATUALIZACAO") then [("USUARIO_ATUALIZACAO", Lit(SqlStrValue(UserLabel(user))))] else [];
    assert |"DATA_ATUALIZACAO"| != |"USUARIO_ATUALIZACAO"|;
    assert BatchSets(tcols, whens, user, now) == [("INSUMO", CaseId(whens)), ("DATA_ATUALIZACAO", Lit(now))] + usr;
  }

  /** The batch SET list gives a selected row the edited INSUMO of the first changed
      entry for its ID, the arm `CASE` takes. */
  lemma BatchAssignInsumo(tcols: seq<string>, changed: seq<(Value, string)>, ids: seq<int>, user: Actor, now: Value, row: Row)
    returns (k: nat)
    requires |ids| == |changed|
    requires Selected(row, ids)
    ensures k < |changed| && SqlEq(Get(row, "ID"), VInt(ids[k]))
    ensures forall j :: 0 <= j < k ==> !SqlEq(Get(row, "ID"), VInt(ids[j]))
    ensures Get(Assign(row, BatchSets(tcols, BatchWhens(changed, ids), user, now), row), "INSUMO") == VStr(changed[k].1)
  {
    var whens := BatchWhens(changed, ids);
    var sets := BatchSets(tcols, whens, user, now);
    BatchSetsHead(tcols, whens, user, now);
    SelectedIff(row, ids);
    AssignGet(row, sets, row, "INSUMO");
    assert Get(Assign(row, sets, row), "INSUMO") == CaseValue(Get(row, "ID"), whens);
    var k0 :| 0 <= k0 < |ids| && SqlEq(Get(row, "ID"), VInt(ids[k0]));
    assert SqlEq(Get(row, "ID"), VInt(whens[k0].0));
    k := CaseFirstArm(Get(row, "ID"), whens);
    assert forall j :: 0 <= j < k ==> whens[j].0 == ids[j];
  }

  lemma DataColumnFound(tcols: seq<string>)
    requires "DATA_ATUALIZACAO" in tcols
    ensures HasColumn(tcols, "DATA_ATUALIZACAO")
  {
    UpperFixed("DATA_ATUALIZACAO");
  }

  /** The batch SET list stamps DATA_ATUALIZACAO when the table has that column. */
  lemma BatchAssignStamp(tcols: seq<string>, whens: seq<(int, Value)>, user: Actor, now: Value, row: Row)
    requires "DATA_ATUALIZACAO" in tcols
    ensures Get(Assign(row, BatchSets(tcols, whens, user, now), row), "DATA_ATUALIZACAO") == now
  {
    DataColumnFound(tcols);
    BatchSetsData(tcols, whens, user, now);
    AssignAt(row, BatchSets(tcols, whens, user, now), row, 1);
  }

  /** After the batch UPDATE a row whose ID is no changed ID is as it was; a row whose ID
      is one gets the edited INSUMO of a changed entry of that ID, and the time stamp when
      the table has that column. */
  lemma BatchUpdatesChanged(db: Tables, table: string, before: Table, after: Table, user: Actor, now: Value, i: nat)
    requires BatchPlan(db, table, before, after, user, now).Write?
    requires Exec(db, BatchPlan(db, table, before, after, user, now).stmt).Ok?
    requires table in db && i < |db[table].rows|
    ensures var changed := ChangedRows(after.rows, before.rows);
      var ids := Ints(EntryIds(changed)).value;
      var row := db[table].rows[i];
      var rows := Exec(db, BatchPlan(db, table, before, after, user, now).stmt).value[table].rows;
      && |rows| == |db[table].rows|
      && ((forall k :: 0 <= k < |changed| ==> !SqlEq(Get(row, "ID"), VInt(ids[k]))) ==> rows[i] == row)
      && ((exists k :: 0 <= k < |changed| && SqlEq(Get(row, "ID"), VInt(ids[k]))) ==>
            exists k :: && 0 <= k < |changed| && SqlEq(Get(row, "ID"), VInt(ids[k]))
                        && (forall j :: 0 <= j < k ==> !SqlEq(Get(row, "ID"), VInt(ids[j])))
                        && PyInt(changed[k].0) == Some(ids[k]) && Get(rows[i], "INSUMO") == VStr(changed[k].1))
      && (Selected(row, ids) && "DATA_ATUALIZACAO" in db[table].cols ==> Get(rows[i], "DATA_ATUALIZACAO") == now)
  {
    BatchPlanShape(db, table, before, after, user, now);
    var changed := ChangedRows(after.rows, before.rows);
    var ids := Ints(EntryIds(changed)).value;
    var sets := BatchSets(db[table].cols, BatchWhens(changed, ids), user, now);
    UpdateRow(db, table, sets, ids, i);
    assert forall k :: 0 <= k < |changed| ==> PyInt(changed[k].0) == Some(ids[k]) by {
      assert forall k :: 0 <= k < |changed| ==> EntryIds(changed)[k] == changed[k].0;
    }
    var rows := Exec(db, BatchPlan(db, table, before, after, user, now).stmt).value[table].rows;
    BatchRowEffect(db[table].cols, changed, ids, user, now, db[table].rows[i], rows[i]);
  }

  /** One row under the batch UPDATE, whatever table it sits in. */
  lemma BatchRowEffect(tcols: seq<string>, changed: seq<(Value, string)>, ids: seq<int>, user: Actor, now: Value,
                       row: Row, out: Row)
    requires |ids| == |changed| && forall k :: 0 <= k < |changed| ==> PyInt(changed[k].0) == Some(ids[k])
    requires out == if Selected(row, ids) then Assign(row, BatchSets(tcols, BatchWhens(changed, ids), user, now), row) else row
    ensures (forall k :: 0 <= k < |changed| ==> !SqlEq(Get(row, "ID"), VInt(ids[k]))) ==> out == row
    ensures (exists k :: 0 <= k < |changed| && SqlEq(Get(row, "ID"), VInt(ids[k]))) ==>
      exists k :: && 0 <= k < |changed| && SqlEq(Get(row, "ID"), VInt(ids[k]))
                  && (forall j :: 0 <= j < k ==> !SqlEq(Get(row, "ID"), VInt(ids[j])))
                  && PyInt(changed[k].0) == Some(ids[k]) && Get(out, "INSUMO") == VStr(changed[k].1)
    ensures Selected(row, ids) && "DATA_ATUALIZACAO" in tcols ==> Get(out, "DATA_ATUALIZACAO") == now
  {
    SelectedIff(row, ids);
    if Selected(row, ids) {
      var k := BatchAssignInsumo(tcols, changed, ids, user, now, row);
      if "DATA_ATUALIZACAO" in tcols {
        BatchAssignStamp(tcols, BatchWhens(changed, ids), user, now, row);
      }
    }
  }

  // ---------------------------------------------------------------------------
  // The page's frames

  /** An item waits for its INSUMO while that cell is null or blank. */
  predicate Pending(r: Row) {
    IsNa(Get(r, "INSUMO")) || Strip(PyStr(Get(r, "INSUMO"))) == ""
  }

  /** `df_missing`; an error when the loaded frame has no INSUMO column. */
  function PendingRows(t: Table): (r: Result<seq<Row>>)
    ensures r.Err? <==> "INSUMO" !in t.cols
  {
    if "INSUMO" !in t.cols then Err("A coluna INSUMO não existe no dataframe carregado (listar_itens_df).")
    else Ok(PendingOf(t.rows))
  }

  function PendingOf(rows: seq<Row>): seq<Row>
    decreases |rows|
  {
    if rows == [] then [] else (if Pending(rows[0]) then [rows[0]] else []) + PendingOf(rows[1..])
  }

  /** A row is listed iff it is pending; the listing keeps the table's order. */
  lemma {:induction false} PendingMember(rows: seq<Row>, r: Row)
    ensures r in PendingOf(rows) <==> r in rows && Pending(r)
    decreases |rows|
  {
    if rows != [] {
      PendingMember(rows[1..], r);
      assert rows == [rows[0]] + rows[1..];
    }
  }

  // ---------------------------------------------------------------------------
  // The uploaded sheet

  /** The uploaded rows' ID (as read) and cleaned INSUMO, the ID taken from the loaded
      items by code when the sheet has no ID column. */
  function UploadKeys(up: Table, all: Table): Result<seq<(Value, string)>> {
    if "INSUMO" !in up.cols then Err("A planilha precisa conter a coluna INSUMO.")
    else if "ID" !in up.cols && "CODIGO_PRODUTO" !in up.cols then
      Err("A planilha precisa conter ID ou CODIGO_PRODUTO (além de INSUMO).")
    else if "ID" in up.cols then
      Ok(seq(|up.rows|, i requires 0 <= i < |up.rows| => (Get(up.rows[i], "ID"), CleanText(Get(up.rows[i], "INSUMO")))))
    else if "CODIGO_PRODUTO" !in all.cols || "ID" !in all.cols then Err("KeyError")
    else Ok(ByCode(up.rows, all.rows))
  }

  /** The left merge on the cleaned code: one entry per loaded item with the row's
      code, or one with a null ID when there is none. */
  function ByCode(up: seq<Row>, all: seq<Row>): seq<(Value, string)>
    decreases |up|
  {
    if up == [] then []
    else
      var ins := CleanText(Get(up[0], "INSUMO"));
      var hits := CodeHits(CleanText(Get(up[0], "CODIGO_PRODUTO")), all);
      (if hits == [] then [(VNull, ins)] else seq(|hits|, k requires 0 <= k < |hits| => (hits[k], ins)))
      + ByCode(up[1..], all)
  }

  /** The IDs of the loaded items whose cleaned code is `code`, in order. */
  function CodeHits(code: string, all: seq<Row>): seq<Value>
    decreases |all|
  {
    if all == [] then []
    else (if CleanText(Get(all[0], "CODIGO_PRODUTO")) == code then [Get(all[0], "ID")] else []) + CodeHits(code, all[1..])
  }

  /** `to_numeric(errors="coerce")`, `dropna` and `astype(int)` on the IDs, through
      the numeric parser `toId`; then the rows with an empty INSUMO are dropped. */
  function Usable(ps: seq<(Value, string)>, toId: Value -> Option<int>): seq<(int, string)>
    decreases |ps|
  {
    if ps == [] then []
    else
      (if toId(ps[0].0).Some? && ps[0].1 != "" then [(toId(ps[0].0).value, ps[0].1)] else [])
      + Usable(ps[1..], toId)
  }

  function Ids(ps: seq<(int, string)>): set<int> {
    set p | p in ps :: p.0
  }

  /** `drop_duplicates(subset=["ID"], keep="last")` */
  function KeepLast(ps: seq<(int, string)>): seq<(int, string)>
    decreases |ps|
  {
    if ps == [] then []
    else (if ps[0].0 in Ids(ps[1..]) then [] else [ps[0]]) + KeepLast(ps[1..])
  }

  /** The cleaned upload. */
  function CleanUpload(up: Table, all: Table, toId: Value -> Option<int>): Result<seq<(int, string)>> {
    match UploadKeys(up, all)
    case Err(e) => Err(e)
    case Ok(keyed) => Ok(KeepLast(Usable(keyed, toId)))
  }

  predicate UniqueIds(ps: seq<(int, string)>) {
    forall i, j :: 0 <= i < j < |ps| ==> ps[i].0 != ps[j].0
  }

  /** An entry is usable iff its ID parses and its INSUMO is non-empty. */
  lemma {:induction false} UsableMember(ps: seq<(Value, string)>, toId: Value -> Option<int>, q: (int, string))
    ensures q in Usable(ps, toId) <==> exists p :: p in ps && toId(p.0) == Some(q.0) && p.1 == q.1 && q.1 != ""
    decreases |ps|
  {
    if ps != [] {
      UsableMember(ps[1..], toId, q);
      assert ps == [ps[0]] + ps[1..];
    }
  }

  /** Deduplication keeps exactly the last entry of each ID, in the original order. */
  lemma {:induction false} KeepLastMember(ps: seq<(int, string)>, q: (int, string))
    ensures q in KeepLast(ps) <==> exists i :: 0 <= i < |ps| && ps[i] == q && forall j :: i < j < |ps| ==> ps[j].0 != q.0
    decreases |ps|
  {
    if ps != [] {
      KeepLastMember(ps[1..], q);
      var tail := ps[1..];
      assert forall i :: 0 <= i < |tail| ==> tail[i] == ps[i + 1];
      if q in KeepLast(ps) && q !in KeepLast(tail) {
        assert q == ps[0] && ps[0].0 !in Ids(tail);
        forall j | 0 < j < |ps| ensures ps[j].0 != q.0 {
          assert tail[j - 1] in tail;
        }
      }
      if exists i :: 0 <= i < |ps| && ps[i] == q && forall j :: i < j < |ps| ==> ps[j].0 != q.0 {
        var i :| 0 <= i < |ps| && ps[i] == q && forall j :: i < j < |ps| ==> ps[j].0 != q.0;
        if i == 0 {
          forall p | p in tail ensures p.0 != q.0 {
            var j :| 0 <= j < |tail| && tail[j] == p;
            assert ps[j + 1] == p;
          }
        } else {
          assert tail[i - 1] == q;
        }
      }
    }
  }

  lemma {:induction false} KeepLastSub(ps: seq<(int, string)>, q: (int, string))
    requires q in KeepLast(ps)
    ensures q in ps
    decreases |ps|
  {
    if ps != [] && q != ps[0] {
      KeepLastSub(ps[1..], q);
    }
  }

  /** After deduplication no two entries share an ID. */
  lemma {:induction false} KeepLastUnique(ps: seq<(int, string)>)
    ensures UniqueIds(KeepLast(ps))
    decreases |ps|
  {
    if ps != [] {
      KeepLastUnique(ps[1..]);
      var rest := KeepLast(ps[1..]);
      if ps[0].0 !in Ids(ps[1..]) {
        forall q | q in rest ensures q.0 != ps[0].0 {
          KeepLastSub(ps[1..], q);
        }
        var r := [ps[0]] + rest;
        forall i, j | 0 <= i < j < |r| ensures r[i].0 != r[j].0 {
          if i == 0 {
            assert r[j] == rest[j - 1] && rest[j - 1] in rest;
          } else {
            assert r[i] == rest[i - 1] && r[j] == rest[j - 1];
          }
        }
      }
    }
  }

  /** The cleaned upload holds exactly the last usable entry of each ID, each ID once. */
  lemma CleanUploadSpec(up: Table, all: Table, toId: Value -> Option<int>, q: (int, string))
    requires CleanUpload(up, all, toId).Ok?
    ensures UniqueIds(CleanUpload(up, all, toId).value)
    ensures var u := Usable(UploadKeys(up, all).value, toId);
      q in CleanUpload(up, all, toId).value <==>
        exists i :: 0 <= i < |u| && u[i] == q && forall j :: i < j < |u| ==> u[j].0 != q.0
    ensures q in CleanUpload(up, all, toId).value ==> q.1 != ""
  {
    var u := Usable(UploadKeys(up, all).value, toId);
    KeepLastUnique(u);
    KeepLastMember(u, q);
    if q in CleanUpload(up, all, toId).value {
      KeepLastSub(u, q);
      UsableMember(UploadKeys(up, all).value, toId, q);
    }
  }

  /** The upload split by whether the ID is still pending. */
  function Split(ps: seq<(int, string)>, pending: set<int>, keepIn: bool): seq<(int, string)>
    decreases |ps|
  {
    if ps == [] then []
    else (if (ps[0].0 in pending) == keepIn then [ps[0]] else []) + Split(ps[1..], pending, keepIn)
  }

  /** The two parts hold every row once between them. */
  lemma {:induction false} SplitPartition(ps: seq<(int, string)>, pending: set<int>)
    ensures multiset(Split(ps, pending, true)) + multiset(Split(ps, pending, false)) == multiset(ps)
    decreases |ps|
  {
    if ps != [] {
      SplitPartition(ps[1..], pending);
      assert ps == [ps[0]] + ps[1..];
    }
  }

  /** One part holds exactly the rows of pending IDs, the other the rest. */
  lemma {:induction false} SplitMember(ps: seq<(int, string)>, pending: set<int>, keepIn: bool, q: (int, string))
    ensures q in Split(ps, pending, keepIn) <==> q in ps && (q.0 in pending) == keepIn
    decreases |ps|
  {
    if ps != [] {
      SplitMember(ps[1..], pending, keepIn, q);
      assert ps == [ps[0]] + ps[1..];
    }
  }

  /** `ids_missing`: the pending rows' IDs as ints (empty without an ID column); `None`
      where `astype(int)` raises. */
  function PendingIds(cols: seq<string>, rows: seq<Row>): Option<set<int>> {
    if "ID" !in cols then Some({})
    else match Ints(seq(|rows|, i requires 0 <= i < |rows| => Get(rows[i], "ID")))
      case None => None
      case Some(xs) => Some(set x | x in xs)
  }

  /** `dict(zip(ID, INSUMO))`: a later entry overrides an earlier one. */
  function UploadMap(ps: seq<(int, string)>): map<int, string>
    decreases |ps|
  {
    if ps == [] then map[] else UploadMap(ps[..|ps| - 1])[ps[|ps| - 1].0 := ps[|ps| - 1].1]
  }

  /** The map has exactly the entries' IDs. */
  lemma {:induction false} UploadMapKeys(ps: seq<(int, string)>)
    ensures UploadMap(ps).Keys == Ids(ps)
    decreases |ps|
  {
    if ps != [] {
      var init := ps[..|ps| - 1];
      UploadMapKeys(init);
      assert ps == init + [ps[|ps| - 1]];
      assert Ids(ps) == Ids(init) + {ps[|ps| - 1].0};
    }
  }

  /** With one entry per ID the map gives each ID its entry's INSUMO. */
  lemma {:induction false} UploadMapValues(ps: seq<(int, string)>, q: (int, string))
    requires UniqueIds(ps) && q in ps
    ensures q.0 in UploadMap(ps) && UploadMap(ps)[q.0] == q.1
    decreases |ps|
  {
    var init := ps[..|ps| - 1];
    var last := ps[|ps| - 1];
    if q != last {
      var i :| 0 <= i < |ps| && ps[i] == q;
      assert i < |ps| - 1 && init[i] == q;
      assert UniqueIds(init) by {
        forall a, b | 0 <= a < b < |init| ensures init[a].0 != init[b].0 {
          assert init[a] == ps[a] && init[b] == ps[b];
        }
      }
      UploadMapValues(init, q);
      assert ps[i].0 != last.0;
    }
  }

  /** `df_before_apply`: the pending rows' ID and cleaned INSUMO. */
  function BeforeApply(pending: seq<Row>): (r: seq<Row>)
    ensures |r| == |pending|
  {
    seq(|pending|, i requires 0 <= i < |pending| =>
      map["ID" := Get(pending[i], "ID"), "INSUMO" := VStr(CleanText(Get(pending[i], "INSUMO")))])
  }

  /** `df_after_apply`: each row's INSUMO replaced by the uploaded value for its ID, if
      any; `None` where `int(ID)` raises. */
  function AfterApply(before: seq<Row>, m: map<int, string>): (r: Option<seq<Row>>)
    ensures r.Some? ==> |r.value| == |before|
    decreases |before|
  {
    if before == [] then Some([])
    else match (PyInt(Get(before[0], "ID")), AfterApply(before[1..], m))
      case (Some(id), Some(rest)) =>
        Some([before[0]["INSUMO" := if id in m then VStr(m[id]) else Get(before[0], "INSUMO")]] + rest)
      case _ => None
  }

  /** In the after-frame a pending row keeps its ID and takes the uploaded INSUMO of its
      ID, or keeps its own. */
  lemma {:induction false} AfterApplySpec(before: seq<Row>, m: map<int, string>, i: nat)
    requires AfterApply(before, m).Some? && i < |before|
    ensures PyInt(Get(before[i], "ID")).Some?
    ensures var id := PyInt(Get(before[i], "ID")).value;
      var a := AfterApply(before, m).value[i];
      && Get(a, "ID") == Get(before[i], "ID")
      && Get(a, "INSUMO") == (if id in m then VStr(m[id]) else Get(before[i], "INSUMO"))
    decreases |before|
  {
    if i > 0 {
      AfterApplySpec(before[1..], m, i - 1);
    }
  }
}
