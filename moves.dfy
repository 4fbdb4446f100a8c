/** The shape every lifecycle transition shares: copy the rows of the selected
    IDs from one store into another (over a list of columns both have), stamp the
    copied rows, and delete them from the store they came from. */
module Moves {
  import opened Wrappers
  import opened Cells
  import opened Store

  /** `SELECT c1, c2, ...` */
  function CopyCols(cols: seq<string>): (es: seq<Expr>)
    ensures |es| == |cols| && forall k :: 0 <= k < |cols| ==> es[k] == Col(cols[k])
  {
    seq(|cols|, k requires 0 <= k < |cols| => Col(cols[k]))
  }

  /** INSERT INTO target (cols) SELECT cols FROM source WHERE ID IN ids;
      UPDATE target SET stamps WHERE ID IN ids (only with stamps);
      DELETE FROM source WHERE ID IN ids. */
  function MovePlan(source: string, target: string, cols: seq<string>, stamps: seq<(string, Expr)>, ids: seq<int>): seq<Stmt> {
    [InsertSelect(target, cols, source, CopyCols(cols), IdIn(ids))]
    + (if stamps == [] then [] else [Update(target, stamps, IdIn(ids))])
    + [Delete(source, IdIn(ids))]
  }

  /** What the statements of a move need to run without an SQL error. */
  predicate MoveOk(db: Tables, source: string, target: string, cols: seq<string>, stamps: seq<(string, Expr)>) {
    && source in db && target in db
    && cols != [] && AllIn(cols, db[target].cols) && AllIn(cols, db[source].cols)
    && "ID" in db[source].cols
    && (stamps != [] ==> SetsFit(stamps, db[target].cols) && "ID" in db[target].cols)
  }

  /** The rows the INSERT appends to the target. */
  function Moved(db: Tables, source: string, target: string, cols: seq<string>, ids: seq<int>): seq<Row>
    requires source in db && target in db
  {
    Projected(Matching(db[source].rows, IdIn(ids)), db[target].cols, cols, CopyCols(cols))
  }

  /** The target's rows after the move: the old rows and the copies, and every row of
      the selected IDs (old or copied) stamped. */
  function TargetAfter(db: Tables, source: string, target: string, cols: seq<string>, stamps: seq<(string, Expr)>, ids: seq<int>): seq<Row>
    requires source in db && target in db
  {
    var appended := db[target].rows + Moved(db, source, target, cols, ids);
    if stamps == [] then appended else Updated(appended, stamps, IdIn(ids))
  }

  function MoveResult(db: Tables, source: string, target: string, cols: seq<string>, stamps: seq<(string, Expr)>, ids: seq<int>): Tables
    requires source in db && target in db
  {
    db[target := Table(db[target].cols, TargetAfter(db, source, target, cols, stamps, ids))]
      [source := Table(db[source].cols, Remaining(db[source].rows, IdIn(ids)))]
  }

  /** A move commits iff its statements fit the two tables, and then its result is the
      one above; no other table changes. */
  lemma MoveOutcome(db: Tables, source: string, target: string, cols: seq<string>, stamps: seq<(string, Expr)>, ids: seq<int>)
    requires source != target
    ensures RunAll(db, MovePlan(source, target, cols, stamps, ids)).Ok? <==> MoveOk(db, source, target, cols, stamps)
    ensures MoveOk(db, source, target, cols, stamps) ==>
      RunAll(db, MovePlan(source, target, cols, stamps, ids)).value == MoveResult(db, source, target, cols, stamps, ids)
  {
    var ins := InsertSelect(target, cols, source, CopyCols(cols), IdIn(ids));
    var del := Delete(source, IdIn(ids));
    var plan := MovePlan(source, target, cols, stamps, ids);
    InsertStep(db, source, target, cols, ids);
    if stamps == [] {
      assert plan == [ins, del];
      RunAllTwo(db, ins, del);
    } else {
      var upd := Update(target, stamps, IdIn(ids));
      assert plan == [ins, upd] + [del];
      RunAllAppend(db, [ins, upd], [del]);
      RunAllTwo(db, ins, upd);
      match RunAll(db, [ins, upd]) {
        case Ok(d2) => RunAllOne(d2, del);
        case Err(_) =>
      }
    }
  }

  predicate InsertFits(db: Tables, source: string, target: string, cols: seq<string>) {
    source in db && target in db && cols != [] && AllIn(cols, db[target].cols) && AllIn(cols, db[source].cols)
    && "ID" in db[source].cols
  }

  lemma InsertStep(db: Tables, source: string, target: string, cols: seq<string>, ids: seq<int>)
    ensures var ins := InsertSelect(target, cols, source, CopyCols(cols), IdIn(ids));
      && (Exec(db, ins).Ok? <==> InsertFits(db, source, target, cols))
      && (InsertFits(db, source, target, cols) ==>
            Exec(db, ins) == Ok(db[target := Append(db[target], Moved(db, source, target, cols, ids))]))
  {
    var es := CopyCols(cols);
    if source in db {
      if AllIn(cols, db[source].cols) {
        assert SelectFits(es, db[source].cols) by {
          forall e | e in es ensures Reads(e, db[source].cols) {
            var k :| 0 <= k < |es| && es[k] == e;
          }
        }
      } else {
        var c :| c in cols && c !in db[source].cols;
        var k :| 0 <= k < |cols| && cols[k] == c;
        assert es[k] in es && !Reads(es[k], db[source].cols);
      }
    }
  }

  /** Rows are neither lost nor made up: what leaves the source is what the target gains. */
  lemma MoveConserves(db: Tables, source: string, target: string, cols: seq<string>, stamps: seq<(string, Expr)>, ids: seq<int>)
    requires source != target && source in db && target in db
    ensures var r := MoveResult(db, source, target, cols, stamps, ids);
      && |r[source].rows| + |r[target].rows| == |db[source].rows| + |db[target].rows|
      && |r[target].rows| == |db[target].rows| + |Matching(db[source].rows, IdIn(ids))|
  {
    FilterSplit(db[source].rows, IdIn(ids));
  }

  /** After the move no row of the selected IDs is left in the source, and every other row is. */
  lemma MoveEmptiesSource(db: Tables, source: string, target: string, cols: seq<string>, stamps: seq<(string, Expr)>, ids: seq<int>, r: Row)
    requires source != target && source in db && target in db
    ensures r in MoveResult(db, source, target, cols, stamps, ids)[source].rows <==>
      r in db[source].rows && !Selected(r, ids)
  {
    FilterMember(db[source].rows, IdIn(ids), false, r);
  }

  /** Each copy carries its source row's value in every copied column, and NULL in the
      target's other columns. */
  lemma MovedCells(db: Tables, source: string, target: string, cols: seq<string>, ids: seq<int>, i: nat, c: string)
    requires source in db && target in db && i < |Moved(db, source, target, cols, ids)|
    ensures var src := Matching(db[source].rows, IdIn(ids));
      && |src| == |Moved(db, source, target, cols, ids)|
      && (c in cols && c in db[target].cols ==> Get(Moved(db, source, target, cols, ids)[i], c) == Get(src[i], c))
      && (c !in cols || c !in db[target].cols ==> Get(Moved(db, source, target, cols, ids)[i], c) == VNull)
      && Selected(src[i], ids)
  {
    var src := Matching(db[source].rows, IdIn(ids));
    var es := CopyCols(cols);
    var vals := seq(|es|, k requires 0 <= k < |es| => Eval(es[k], src[i]));
    assert Moved(db, source, target, cols, ids)[i] == NewRow(db[target].cols, cols, vals);
    ListedCopy(c, cols, src[i]);
    assert src[i] in src;
    FilterMember(db[source].rows, IdIn(ids), true, src[i]);
  }

  lemma {:induction false} ListedCopy(c: string, cols: seq<string>, r: Row)
    ensures var vals := seq(|cols|, k requires 0 <= k < |cols| => Eval(CopyCols(cols)[k], r));
      ListedValue(c, cols, vals) == if c in cols then Get(r, c) else VNull
    decreases |cols|
  {
    var vals := seq(|cols|, k requires 0 <= k < |cols| => Eval(CopyCols(cols)[k], r));
    if cols != [] {
      ListedCopy(c, cols[1..], r);
      var vals1 := seq(|cols[1..]|, k requires 0 <= k < |cols[1..]| => Eval(CopyCols(cols[1..])[k], r));
      assert vals[1..] == vals1;
    }
  }

  /** Every target row of a selected ID carries the stamps (the old rows of those IDs
      included); the target keeps its other rows as they were. */
  lemma TargetStamped(db: Tables, source: string, target: string, cols: seq<string>, stamps: seq<(string, Expr)>, ids: seq<int>, i: nat, k: nat)
    requires source in db && target in db
    requires i < |TargetAfter(db, source, target, cols, stamps, ids)| && k < |stamps|
    requires forall j :: k < j < |stamps| ==> stamps[j].0 != stamps[k].0
    ensures var appended := db[target].rows + Moved(db, source, target, cols, ids);
      && |TargetAfter(db, source, target, cols, stamps, ids)| == |appended|
      && (Selected(appended[i], ids) ==>
            Get(TargetAfter(db, source, target, cols, stamps, ids)[i], stamps[k].0) == Eval(stamps[k].1, appended[i]))
      && (!Selected(appended[i], ids) ==> TargetAfter(db, source, target, cols, stamps, ids)[i] == appended[i])
  {
    var appended := db[target].rows + Moved(db, source, target, cols, ids);
    AssignGet(appended[i], stamps, appended[i], stamps[k].0);
  }

  /** A literal stamp is what every target row of a selected ID holds after the move. */
  lemma StampedRow(db: Tables, source: string, target: string, cols: seq<string>, stamps: seq<(string, Expr)>, ids: seq<int>, y: Row, k: nat)
    requires source in db && target in db && "ID" !in SetCols(stamps)
    requires k < |stamps| && stamps[k].1.Lit?
    requires forall j :: k < j < |stamps| ==> stamps[j].0 != stamps[k].0
    requires y in TargetAfter(db, source, target, cols, stamps, ids) && Selected(y, ids)
    ensures Get(y, stamps[k].0) == stamps[k].1.v
  {
    var after := TargetAfter(db, source, target, cols, stamps, ids);
    var appended := db[target].rows + Moved(db, source, target, cols, ids);
    var i :| 0 <= i < |after| && after[i] == y;
    TargetStamped(db, source, target, cols, stamps, ids, i, k);
    if stamps != [] {
      AssignGet(appended[i], stamps, appended[i], "ID");
    }
  }

  /** An ID that no row of either store carries changes nothing about the move. */
  lemma MoveIgnoresUnknownId(db: Tables, source: string, target: string, cols: seq<string>, stamps: seq<(string, Expr)>, ids: seq<int>, x: int)
    requires source in db && target in db
    requires forall r :: r in db[source].rows ==> !SqlEq(Get(r, "ID"), VInt(x))
    requires forall r :: r in db[target].rows ==> !SqlEq(Get(r, "ID"), VInt(x))
    ensures MoveResult(db, source, target, cols, stamps, ids + [x]) == MoveResult(db, source, target, cols, stamps, ids)
  {
    var w0, w1 := IdIn(ids), IdIn(ids + [x]);
    forall r | r in db[source].rows ensures Holds(w1, r) <==> Holds(w0, r) {
      SelectedExtend(r, ids, x);
    }
    FilterSame(db[source].rows, w1, w0, true);
    FilterSame(db[source].rows, w1, w0, false);
    var moved := Moved(db, source, target, cols, ids);
    assert Moved(db, source, target, cols, ids + [x]) == moved;
    var appended := db[target].rows + moved;
    forall r | r in appended ensures Holds(w1, r) <==> Holds(w0, r) {
      SelectedExtend(r, ids, x);
      if r !in db[target].rows {
        var i :| 0 <= i < |moved| && moved[i] == r;
        MovedCells(db, source, target, cols, ids, i, "ID");
        var src := Matching(db[source].rows, w0);
        assert src[i] in src;
        FilterMember(db[source].rows, w0, true, src[i]);
      }
    }
    UpdatedSame(appended, stamps, w1, w0);
  }

  // ---------------------------------------------------------------------------
  // An item is in one store at a time

  /** No ID of one row list equals an ID of the other. */
  predicate IdsDisjoint(a: seq<Row>, b: seq<Row>) {
    forall x, y :: x in a && y in b ==> !SqlEq(Get(x, "ID"), Get(y, "ID"))
  }

  lemma IdsDisjointSym(a: seq<Row>, b: seq<Row>)
    requires IdsDisjoint(a, b)
    ensures IdsDisjoint(b, a)
  {
    forall x, y | x in b && y in a ensures !SqlEq(Get(x, "ID"), Get(y, "ID")) {
      SqlEqSymmetric(Get(x, "ID"), Get(y, "ID"));
    }
  }

  lemma SqlEqTransitive(a: Value, b: Value, c: Value)
    requires SqlEq(a, b) && SqlEq(b, c)
    ensures SqlEq(a, c)
  {
    PyEqTransitive(a, b, c);
  }

  lemma SqlEqSymmetric(a: Value, b: Value)
    ensures SqlEq(a, b) <==> SqlEq(b, a)
  {
    PyEqSymmetric(a, b);
  }

  /** A copied row keeps its ID when ID is among the copied columns. */
  lemma MovedIds(db: Tables, source: string, target: string, cols: seq<string>, ids: seq<int>, y: Row)
    requires source in db && target in db && "ID" in cols && "ID" in db[target].cols
    requires y in Moved(db, source, target, cols, ids)
    ensures exists m :: m in db[source].rows && Selected(m, ids) && Get(y, "ID") == Get(m, "ID")
  {
    var i :| 0 <= i < |Moved(db, source, target, cols, ids)| && Moved(db, source, target, cols, ids)[i] == y;
    MovedCells(db, source, target, cols, ids, i, "ID");
    var src := Matching(db[source].rows, IdIn(ids));
    assert src[i] in src;
    FilterMember(db[source].rows, IdIn(ids), true, src[i]);
  }

  /** Stamping never touches ID while it is not a stamped column. */
  lemma {:induction false} UpdatedIds(rows: seq<Row>, stamps: seq<(string, Expr)>, ids: seq<int>, y: Row)
    requires "ID" !in SetCols(stamps)
    requires y in Updated(rows, stamps, IdIn(ids))
    ensures exists x :: x in rows && Get(y, "ID") == Get(x, "ID")
  {
    var i :| 0 <= i < |rows| && Updated(rows, stamps, IdIn(ids))[i] == y;
    AssignGet(rows[i], stamps, rows[i], "ID");
  }

  /** The target's IDs after the move are its old IDs and the moved ones. */
  lemma TargetIds(db: Tables, source: string, target: string, cols: seq<string>, stamps: seq<(string, Expr)>, ids: seq<int>, y: Row)
    requires source in db && target in db && "ID" in cols && "ID" in db[target].cols && "ID" !in SetCols(stamps)
    requires y in TargetAfter(db, source, target, cols, stamps, ids)
    ensures (exists x :: x in db[target].rows && Get(y, "ID") == Get(x, "ID")) ||
            (exists m :: m in db[source].rows && Selected(m, ids) && Get(y, "ID") == Get(m, "ID"))
  {
    var appended := db[target].rows + Moved(db, source, target, cols, ids);
    var z := y;
    if stamps != [] {
      UpdatedIds(appended, stamps, ids, y);
      z :| z in appended && Get(y, "ID") == Get(z, "ID");
    }
    if z !in db[target].rows {
      MovedIds(db, source, target, cols, ids, z);
    }
  }

  /** When the stores hold disjoint IDs before a move that copies ID, they still do after:
      the source against the target, and each of them against a third store. */
  lemma MoveKeepsDisjoint(db: Tables, source: string, target: string, other: string, cols: seq<string>, stamps: seq<(string, Expr)>, ids: seq<int>)
    requires source != target && other != source && other != target
    requires source in db && target in db && other in db
    requires "ID" in cols && "ID" in db[target].cols && "ID" !in SetCols(stamps)
    requires IdsDisjoint(db[source].rows, db[target].rows)
    requires IdsDisjoint(db[source].rows, db[other].rows)
    requires IdsDisjoint(db[target].rows, db[other].rows)
    ensures var r := MoveResult(db, source, target, cols, stamps, ids);
      && IdsDisjoint(r[source].rows, r[target].rows)
      && IdsDisjoint(r[source].rows, r[other].rows)
      && IdsDisjoint(r[target].rows, r[other].rows)
  {
    var r := MoveResult(db, source, target, cols, stamps, ids);
    assert r[other] == db[other];
    forall x, y | x in r[source].rows && y in r[target].rows ensures !SqlEq(Get(x, "ID"), Get(y, "ID")) {
      MoveEmptiesSource(db, source, target, cols, stamps, ids, x);
      TargetIds(db, source, target, cols, stamps, ids, y);
      if exists m :: m in db[source].rows && Selected(m, ids) && Get(y, "ID") == Get(m, "ID") {
        var m :| m in db[source].rows && Selected(m, ids) && Get(y, "ID") == Get(m, "ID");
        SelectedIff(m, ids);
        SelectedIff(x, ids);
        var k :| 0 <= k < |ids| && SqlEq(Get(m, "ID"), VInt(ids[k]));
        if SqlEq(Get(x, "ID"), Get(y, "ID")) {
          SqlEqTransitive(Get(x, "ID"), Get(m, "ID"), VInt(ids[k]));
        }
      }
    }
    forall x, y | x in r[source].rows && y in r[other].rows ensures !SqlEq(Get(x, "ID"), Get(y, "ID")) {
      MoveEmptiesSource(db, source, target, cols, stamps, ids, x);
    }
    forall x, y | x in r[target].rows && y in r[other].rows ensures !SqlEq(Get(x, "ID"), Get(y, "ID")) {
      TargetIds(db, source, target, cols, stamps, ids, x);
    }
  }
}
