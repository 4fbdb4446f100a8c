/** The in-place update pages: the approved-table page and the older pending-table
    page. Both diff the edited frame against the frame as loaded, key by key, and
    send one UPDATE per changed key, each in its own autocommit. They differ in the
    locked columns and in the stamps added to each UPDATE. */
module Atualizacao {
  import opened Wrappers
  import opened Cells
  import opened SqlText
  import opened Store
  import opened Columns

  // ---------------------------------------------------------------------------
  // The key column and the rows of a key

  /** `"ID"` if the frame has it, else `"CODIGO_PRODUTO"`, else none. */
  function KeyColumn(cols: seq<string>): (k: Option<string>)
    ensures k.None? <==> "ID" !in cols && "CODIGO_PRODUTO" !in cols
    ensures k.Some? ==> k.value in cols && (k.value == "ID" <==> "ID" in cols)
  {
    if "ID" in cols then Some("ID")
    else if "CODIGO_PRODUTO" in cols then Some("CODIGO_PRODUTO")
    else None
  }

  /** Equality of index labels: Python `==`, with every missing value one label. */
  predicate KeyEq(a: Value, b: Value) {
    if IsNa(a) || IsNa(b) then IsNa(a) && IsNa(b) else PyEq(a, b)
  }

  lemma KeyEqSymmetric(a: Value, b: Value)
    ensures KeyEq(a, b) <==> KeyEq(b, a)
  {
  }

  /** `frame.set_index(key).loc[k]`: the rows under label `k`, in frame order. */
  function WithKey(rows: seq<Row>, key: string, k: Value): (r: seq<Row>)
    ensures |r| <= |rows|
    decreases |rows|
  {
    if rows == [] then []
    else (if KeyEq(Get(rows[0], key), k) then [rows[0]] else []) + WithKey(rows[1..], key, k)
  }

  lemma {:induction false} WithKeyMember(rows: seq<Row>, key: string, k: Value, r: Row)
    ensures r in WithKey(rows, key, k) <==> r in rows && KeyEq(Get(r, key), k)
    decreases |rows|
  {
    if rows != [] {
      WithKeyMember(rows[1..], key, k, r);
      assert rows == [rows[0]] + rows[1..];
    }
  }

  predicate KeyIn(ks: seq<Value>, k: Value) {
    exists j :: 0 <= j < |ks| && KeyEq(ks[j], k)
  }

  /** The labels of a frame's index, each once, in order of first appearance. */
  function DistinctKeys(rows: seq<Row>, key: string): (ks: seq<Value>)
    ensures |ks| <= |rows|
    decreases |rows|
  {
    if rows == [] then []
    else
      var ks := DistinctKeys(rows[..|rows| - 1], key);
      var k := Get(rows[|rows| - 1], key);
      if KeyIn(ks, k) then ks else ks + [k]
  }

  /** `original_by_key.index.intersection(edited_by_key.index)`: the labels of the frame
      as loaded, each once and in its order, that the edited frame also has. */
  function CommonKeys(beforeRows: seq<Row>, afterRows: seq<Row>, key: string): seq<Value> {
    InOther(DistinctKeys(beforeRows, key), afterRows, key)
  }

  function InOther(ks: seq<Value>, afterRows: seq<Row>, key: string): (r: seq<Value>)
    ensures |r| <= |ks|
    decreases |ks|
  {
    if ks == [] then []
    else (if WithKey(afterRows, key, ks[0]) != [] then [ks[0]] else []) + InOther(ks[1..], afterRows, key)
  }

  // ---------------------------------------------------------------------------
  // The diff

  /** Two cells differ unless both are missing or they are equal. */
  predicate Differs(b: Value, a: Value) {
    !(IsNa(b) && IsNa(a)) && !PyEq(b, a)
  }

  /** The edited frame's columns the diff looks at: not locked, not the key. */
  function Comparable(cols: seq<string>, disabled: seq<string>, key: string): (r: seq<string>)
    ensures forall c :: c in r <==> c in cols && c !in disabled && c != key
    decreases |cols|
  {
    if cols == [] then []
    else (if cols[0] !in disabled && cols[0] != key then [cols[0]] else []) + Comparable(cols[1..], disabled, key)
  }

  /** `diff_cols`: the comparable columns whose cells differ, in column order. */
  function DiffCols(comp: seq<string>, b: Row, a: Row): (r: seq<string>)
    ensures forall c :: c in r <==> c in comp && Differs(Get(b, c), Get(a, c))
    decreases |comp|
  {
    if comp == [] then []
    else (if Differs(Get(b, comp[0]), Get(a, comp[0])) then [comp[0]] else []) + DiffCols(comp[1..], b, a)
  }

  lemma {:induction false} ComparableNoDup(cols: seq<string>, disabled: seq<string>, key: string)
    requires NoDup(cols)
    ensures NoDup(Comparable(cols, disabled, key))
    decreases |cols|
  {
    if cols != [] {
      assert NoDup(cols[1..]) by {
        forall i, j | 0 <= i < j < |cols[1..]| ensures cols[1..][i] != cols[1..][j] {
          assert cols[1..][i] == cols[i + 1] && cols[1..][j] == cols[j + 1];
        }
      }
      ComparableNoDup(cols[1..], disabled, key);
      assert cols[0] !in cols[1..] by {
        forall j | 0 <= j < |cols[1..]| ensures cols[1..][j] != cols[0] {
          assert cols[1..][j] == cols[j + 1];
        }
      }
      NoDupCons(cols[0], Comparable(cols[1..], disabled, key));
      assert [] + Comparable(cols[1..], disabled, key) == Comparable(cols[1..], disabled, key);
    }
  }

  lemma {:induction false} DiffColsNoDup(comp: seq<string>, b: Row, a: Row)
    requires NoDup(comp)
    ensures NoDup(DiffCols(comp, b, a))
    decreases |comp|
  {
    if comp != [] {
      assert NoDup(comp[1..]) by {
        forall i, j | 0 <= i < j < |comp[1..]| ensures comp[1..][i] != comp[1..][j] {
          assert comp[1..][i] == comp[i + 1] && comp[1..][j] == comp[j + 1];
        }
      }
      DiffColsNoDup(comp[1..], b, a);
      assert comp[0] !in comp[1..] by {
        forall j | 0 <= j < |comp[1..]| ensures comp[1..][j] != comp[0] {
          assert comp[1..][j] == comp[j + 1];
        }
      }
      NoDupCons(comp[0], DiffCols(comp[1..], b, a));
      assert [] + DiffCols(comp[1..], b, a) == DiffCols(comp[1..], b, a);
    }
  }

  lemma NoDupCons(x: string, s: seq<string>)
    requires NoDup(s) && x !in s
    ensures NoDup([x] + s)
  {
    var t := [x] + s;
    forall i, j | 0 <= i < j < |t| ensures t[i] != t[j] {
      assert t[j] == s[j - 1];
      if i > 0 { assert t[i] == s[i - 1]; }
    }
  }

  /** One changed key: its label, its row in the edited frame and the changed columns. */
  datatype Change = Change(key: Value, after: Row, cols: seq<string>)

  /** A key is unambiguous when each frame holds exactly one row under it. */
  predicate Unambiguous(beforeRows: seq<Row>, afterRows: seq<Row>, key: string, k: Value) {
    |WithKey(beforeRows, key, k)| == 1 && |WithKey(afterRows, key, k)| == 1
  }

  /** The differing columns of an unambiguous key. */
  function KeyDiff(beforeRows: seq<Row>, afterRows: seq<Row>, key: string, comp: seq<string>, k: Value): seq<string>
    requires Unambiguous(beforeRows, afterRows, key, k)
  {
    DiffCols(comp, WithKey(beforeRows, key, k)[0], WithKey(afterRows, key, k)[0])
  }

  const AMBIGUOUS: string := "The truth value of a Series is ambiguous"

  /** What the loop body finds for one key. */
  datatype Verdict =
    | Ambiguous                                  // several rows under the label in a frame
    | Unchanged                                  // no comparable column differs
    | Changed(after: Row, cols: seq<string>)     // the edited row and `diff_cols`

  function KeyVerdict(beforeRows: seq<Row>, afterRows: seq<Row>, key: string, comp: seq<string>, k: Value): Verdict {
    if !Unambiguous(beforeRows, afterRows, key, k) then Ambiguous
    else
      var d := KeyDiff(beforeRows, afterRows, key, comp, k);
      if d == [] then Unchanged else Changed(WithKey(afterRows, key, k)[0], d)
  }

  /** The verdicts of the keys, in key order. */
  function Verdicts(ks: seq<Value>, beforeRows: seq<Row>, afterRows: seq<Row>, key: string, comp: seq<string>): (vs: seq<Verdict>)
    ensures |vs| == |ks|
    ensures forall j :: 0 <= j < |ks| ==> vs[j] == KeyVerdict(beforeRows, afterRows, key, comp, ks[j])
  {
    seq(|ks|, j requires 0 <= j < |ks| => KeyVerdict(beforeRows, afterRows, key, comp, ks[j]))
  }

  /** The `changes` list after the keys `ks` with verdicts `vs`. An ambiguous key makes
      `.loc` return a frame, and the NA test on it raises when `strict`, that is, as soon
      as there is a column to compare. */
  function Collect(ks: seq<Value>, vs: seq<Verdict>, strict: bool): Result<seq<Change>>
    requires |vs| == |ks|
    decreases |ks|
  {
    if ks == [] then Ok([])
    else Step(Collect(ks[..|ks| - 1], vs[..|vs| - 1], strict), ks[|ks| - 1], vs[|vs| - 1], strict)
  }

  /** One turn of the loop. */
  function Step(prev: Result<seq<Change>>, k: Value, v: Verdict, strict: bool): Result<seq<Change>> {
    match prev
    case Err(e) => Err(e)
    case Ok(chs) =>
      match v
      case Ambiguous => if strict then Err(AMBIGUOUS) else Ok(chs)
      case Unchanged => Ok(chs)
      case Changed(after, d) => Ok(chs + [Change(k, after, d)])
  }

  lemma CollectSnoc(ks: seq<Value>, vs: seq<Verdict>, strict: bool, i: nat)
    requires |vs| == |ks| && i < |ks|
    ensures Collect(ks[..i + 1], vs[..i + 1], strict) == Step(Collect(ks[..i], vs[..i], strict), ks[i], vs[i], strict)
  {
    assert ks[..i + 1][..i] == ks[..i] && vs[..i + 1][..i] == vs[..i];
  }

  /** The changes of the keys `ks`. */
  function ChangesOf(ks: seq<Value>, beforeRows: seq<Row>, afterRows: seq<Row>, key: string, comp: seq<string>): Result<seq<Change>> {
    Collect(ks, Verdicts(ks, beforeRows, afterRows, key, comp), comp != [])
  }

  /** The changes of the edited frame against the frame as loaded, under `key`. */
  function Changes(before: Table, edited: Table, key: string, disabled: seq<string>): Result<seq<Change>> {
    ChangesOf(CommonKeys(before.rows, edited.rows, key), before.rows, edited.rows, key, Comparable(edited.cols, disabled, key))
  }

  lemma {:induction false} CollectFails(ks: seq<Value>, vs: seq<Verdict>, strict: bool)
    requires |vs| == |ks|
    ensures Collect(ks, vs, strict).Err? <==> strict && exists j :: 0 <= j < |vs| && vs[j].Ambiguous?
    decreases |ks|
  {
    if ks != [] {
      var n := |ks| - 1;
      CollectFails(ks[..n], vs[..n], strict);
      assert forall j :: 0 <= j < n ==> vs[..n][j] == vs[j];
      if strict && exists j :: 0 <= j < |vs| && vs[j].Ambiguous? {
        var j :| 0 <= j < |vs| && vs[j].Ambiguous?;
        if j < n {
          assert vs[..n][j].Ambiguous?;
        }
      }
    }
  }

  lemma {:induction false} CollectSound(ks: seq<Value>, vs: seq<Verdict>, strict: bool)
    requires |vs| == |ks| && Collect(ks, vs, strict).Ok?
    ensures var chs := Collect(ks, vs, strict).value;
      forall i :: 0 <= i < |chs| ==>
        exists j :: 0 <= j < |ks| && ks[j] == chs[i].key && vs[j] == Changed(chs[i].after, chs[i].cols)
    decreases |ks|
  {
    if ks != [] {
      var n := |ks| - 1;
      CollectSound(ks[..n], vs[..n], strict);
      var prev := Collect(ks[..n], vs[..n], strict).value;
      var chs := Collect(ks, vs, strict).value;
      forall i | 0 <= i < |chs|
        ensures exists j :: 0 <= j < |ks| && ks[j] == chs[i].key && vs[j] == Changed(chs[i].after, chs[i].cols)
      {
        if i < |prev| {
          assert chs[i] == prev[i];
          var j :| 0 <= j < n && ks[..n][j] == prev[i].key && vs[..n][j] == Changed(prev[i].after, prev[i].cols);
          assert ks[j] == ks[..n][j] && vs[j] == vs[..n][j];
        } else {
          assert ks[n] == chs[i].key && vs[n] == Changed(chs[i].after, chs[i].cols);
        }
      }
    }
  }

  lemma {:induction false} CollectComplete(ks: seq<Value>, vs: seq<Verdict>, strict: bool, j: nat)
    requires |vs| == |ks| && Collect(ks, vs, strict).Ok?
    requires j < |ks| && vs[j].Changed?
    ensures var chs := Collect(ks, vs, strict).value;
      exists i :: 0 <= i < |chs| && chs[i] == Change(ks[j], vs[j].after, vs[j].cols)
    decreases |ks|
  {
    var n := |ks| - 1;
    var chs := Collect(ks, vs, strict).value;
    if j < n {
      assert ks[..n][j] == ks[j] && vs[..n][j] == vs[j];
      CollectComplete(ks[..n], vs[..n], strict, j);
      var prev := Collect(ks[..n], vs[..n], strict).value;
      var i :| 0 <= i < |prev| && prev[i] == Change(ks[j], vs[j].after, vs[j].cols);
      assert chs[i] == prev[i];
    } else {
      assert chs[|chs| - 1] == Change(ks[j], vs[j].after, vs[j].cols);
    }
  }

  lemma {:induction false} CollectErrSticky(ks: seq<Value>, vs: seq<Verdict>, strict: bool, i: nat, j: nat)
    requires |vs| == |ks| && i <= j <= |ks|
    requires Collect(ks[..i], vs[..i], strict).Err?
    ensures Collect(ks[..j], vs[..j], strict) == Collect(ks[..i], vs[..i], strict)
    decreases j - i
  {
    if i < j {
      CollectSnoc(ks, vs, strict, i);
      CollectErrSticky(ks, vs, strict, i + 1, j);
    }
  }

  /** Any other verdict adds its change, if any, and the collection goes on. */
  lemma CollectMoves(ks: seq<Value>, vs: seq<Verdict>, strict: bool, i: nat, chs: seq<Change>)
    requires |vs| == |ks| && i < |ks| && !(strict && vs[i].Ambiguous?)
    requires Collect(ks[..i], vs[..i], strict) == Ok(chs)
    ensures Collect(ks[..i + 1], vs[..i + 1], strict)
      == Ok(if vs[i].Changed? then chs + [Change(ks[i], vs[i].after, vs[i].cols)] else chs)
  {
    CollectSnoc(ks, vs, strict, i);
  }

  /** An ambiguous key under `strict` ends the collection with the exception. */
  lemma CollectStops(ks: seq<Value>, vs: seq<Verdict>, strict: bool, i: nat)
    requires |vs| == |ks| && i < |ks| && strict && vs[i].Ambiguous?
    requires Collect(ks[..i], vs[..i], strict).Ok?
    ensures Collect(ks, vs, strict) == Err(AMBIGUOUS)
  {
    CollectSnoc(ks, vs, strict, i);
    CollectErrSticky(ks, vs, strict, i + 1, |ks|);
    assert ks[..|ks|] == ks && vs[..|ks|] == vs;
  }

  /** What a change records about its key: the key is unambiguous, the recorded row is
      its edited row, and the recorded columns are exactly those that differ, of which
      there is at least one. */
  predicate ChangeOf(ch: Change, beforeRows: seq<Row>, afterRows: seq<Row>, key: string, comp: seq<string>) {
    && Unambiguous(beforeRows, afterRows, key, ch.key)
    && ch.after == WithKey(afterRows, key, ch.key)[0]
    && ch.cols == KeyDiff(beforeRows, afterRows, key, comp, ch.key)
    && ch.cols != []
  }

  /** The diff raises exactly when an ambiguous key meets a column to compare. */
  lemma ChangesOfFails(ks: seq<Value>, beforeRows: seq<Row>, afterRows: seq<Row>, key: string, comp: seq<string>)
    ensures ChangesOf(ks, beforeRows, afterRows, key, comp).Err? <==>
      comp != [] && exists j :: 0 <= j < |ks| && !Unambiguous(beforeRows, afterRows, key, ks[j])
  {
    var vs := Verdicts(ks, beforeRows, afterRows, key, comp);
    CollectFails(ks, vs, comp != []);
    if exists j :: 0 <= j < |ks| && !Unambiguous(beforeRows, afterRows, key, ks[j]) {
      var j :| 0 <= j < |ks| && !Unambiguous(beforeRows, afterRows, key, ks[j]);
      assert vs[j].Ambiguous?;
    }
  }

  /** Every change found is the change of one of the keys. */
  lemma ChangesOfSound(ks: seq<Value>, beforeRows: seq<Row>, afterRows: seq<Row>, key: string, comp: seq<string>, i: nat)
    requires ChangesOf(ks, beforeRows, afterRows, key, comp).Ok?
    requires i < |ChangesOf(ks, beforeRows, afterRows, key, comp).value|
    ensures var ch := ChangesOf(ks, beforeRows, afterRows, key, comp).value[i];
      ChangeOf(ch, beforeRows, afterRows, key, comp) && ch.key in ks
  {
    var vs := Verdicts(ks, beforeRows, afterRows, key, comp);
    CollectSound(ks, vs, comp != []);
    var ch := Collect(ks, vs, comp != []).value[i];
    var j :| 0 <= j < |ks| && ks[j] == ch.key && vs[j] == Changed(ch.after, ch.cols);
  }

  /** Every unambiguous key with a difference has its change. */
  lemma ChangesOfComplete(ks: seq<Value>, beforeRows: seq<Row>, afterRows: seq<Row>, key: string, comp: seq<string>, j: nat)
    requires ChangesOf(ks, beforeRows, afterRows, key, comp).Ok?
    requires j < |ks| && Unambiguous(beforeRows, afterRows, key, ks[j])
    requires KeyDiff(beforeRows, afterRows, key, comp, ks[j]) != []
    ensures var chs := ChangesOf(ks, beforeRows, afterRows, key, comp).value;
      exists i :: 0 <= i < |chs| && chs[i].key == ks[j]
  {
    var vs := Verdicts(ks, beforeRows, afterRows, key, comp);
    CollectComplete(ks, vs, comp != [], j);
  }

  /** No change names a column outside the comparable ones: a locked column, or the key,
      is never reported as changed. */
  lemma ChangeColsComparable(ch: Change, beforeRows: seq<Row>, afterRows: seq<Row>, key: string, cols: seq<string>, disabled: seq<string>, c: string)
    requires ChangeOf(ch, beforeRows, afterRows, key, Comparable(cols, disabled, key))
    requires c in ch.cols
    ensures c in cols && c !in disabled && c != key
  {
  }

  // ---------------------------------------------------------------------------
  // The loops of the save button

  /** `for col in edited.columns: ... diff_cols.append(col)` */
  method DiffColumns(comp: seq<string>, b: Row, a: Row) returns (d: seq<string>)
    ensures d == DiffCols(comp, b, a)
  {
    d := [];
    var i := |comp|;
    while i > 0
      invariant 0 <= i <= |comp|
      invariant d == DiffCols(comp[i..], b, a)
    {
      i := i - 1;
      assert comp[i..][1..] == comp[i + 1..];
      if Differs(Get(b, comp[i]), Get(a, comp[i])) {
        d := [comp[i]] + d;
      }
    }
  }

  /** The body of the loop for one key: `.loc` on both frames, then the diff. */
  method JudgeKey(beforeRows: seq<Row>, afterRows: seq<Row>, key: string, comp: seq<string>, k: Value) returns (v: Verdict)
    ensures v == KeyVerdict(beforeRows, afterRows, key, comp, k)
  {
    var bs := WithKey(beforeRows, key, k);
    var as_ := WithKey(afterRows, key, k);
    if |bs| != 1 || |as_| != 1 {
      return Ambiguous;
    }
    var d := DiffColumns(comp, bs[0], as_[0]);
    v := if d == [] then Unchanged else Changed(as_[0], d);
  }

  /** `for k in common_keys: ...`: the changes, or the exception of an ambiguous key. */
  method DetectChanges(before: Table, edited: Table, key: string, disabled: seq<string>) returns (r: Result<seq<Change>>)
    ensures r == Changes(before, edited, key, disabled)
  {
    var ks := CommonKeys(before.rows, edited.rows, key);
    var comp := Comparable(edited.cols, disabled, key);
    r := CollectChanges(ks, before.rows, edited.rows, key, comp);
  }

  /** The loop itself, over the keys `ks`. */
  method CollectChanges(ks: seq<Value>, beforeRows: seq<Row>, afterRows: seq<Row>, key: string, comp: seq<string>)
    returns (r: Result<seq<Change>>)
    ensures r == ChangesOf(ks, beforeRows, afterRows, key, comp)
  {
    var strict := comp != [];
    ghost var vs := Verdicts(ks, beforeRows, afterRows, key, comp);
    var changes: seq<Change> := [];
    var i := 0;
    while i < |ks|
      invariant 0 <= i <= |ks|
      invariant Collect(ks[..i], vs[..i], strict) == Ok(changes)
    {
      var v := JudgeKey(beforeRows, afterRows, key, comp, ks[i]);
      assert v == vs[i];
      if v.Ambiguous? && strict {
        CollectStops(ks, vs, strict, i);
        return Err(AMBIGUOUS);
      }
      ghost var prefix := ks[..i + 1];
      ghost var vprefix := vs[..i + 1];
      CollectMoves(ks, vs, strict, i, changes);
      if v.Changed? {
        changes := changes + [Change(ks[i], v.after, v.cols)];
      }
      assert Collect(prefix, vprefix, strict) == Ok(changes);
      i := i + 1;
    }
    assert ks[..i] == ks && vs[..i] == vs;
    r := Ok(changes);
  }

  // ---------------------------------------------------------------------------
  // The UPDATE of one change

  /** `c = sql_escape(v)` for every changed column; none when a value has no SQL literal. */
  function SetLits(r: Row, cols: seq<string>): (sets: Option<seq<(string, Expr)>>)
    ensures sets.None? <==> exists k :: 0 <= k < |cols| && SqlEscapeValue(Get(r, cols[k])).None?
    ensures sets.Some? ==> |sets.value| == |cols| && forall k :: 0 <= k < |cols| ==>
      sets.value[k] == (cols[k], Lit(SqlEscapeValue(Get(r, cols[k])).value))
    decreases |cols|
  {
    if cols == [] then Some([])
    else
      var rest := SetLits(r, cols[1..]);
      match SqlEscapeValue(Get(r, cols[0]))
      case None => None
      case Some(v) =>
        if rest.None? then
          var k :| 0 <= k < |cols[1..]| && SqlEscapeValue(Get(r, cols[1..][k])).None?;
          assert cols[k + 1] == cols[1..][k];
          None
        else
          assert forall k :: 1 <= k < |cols| ==> cols[k] == cols[1..][k - 1];
          Some([(cols[0], Lit(v))] + rest.value)
  }

  /** `UPDATE table SET <changed columns>, <stamps> WHERE key = sql_escape(k)`. */
  function RowUpdate(table: string, key: string, ch: Change, stamps: Option<seq<(string, Expr)>>): Stmt {
    match (SetLits(ch.after, ch.cols), SqlEscapeValue(ch.key), stamps)
    case (Some(sets), Some(kv), Some(st)) => Update(table, sets + st, ColIn(key, [kv]))
    case _ => Rejected(table)
  }

  function RowUpdates(table: string, key: string, chs: seq<Change>, stamps: Option<seq<(string, Expr)>>): (r: seq<Stmt>)
    ensures |r| == |chs| && forall i :: 0 <= i < |chs| ==> r[i] == RowUpdate(table, key, chs[i], stamps)
  {
    seq(|chs|, i requires 0 <= i < |chs| => RowUpdate(table, key, chs[i], stamps))
  }

  /** An UPDATE of a change runs exactly when every literal parses, the table exists and
      has the key, the changed columns and the stamped columns. */
  lemma RowUpdateRuns(db: Tables, table: string, key: string, ch: Change, stamps: Option<seq<(string, Expr)>>)
    requires ch.cols != []
    requires stamps.Some? ==> forall k :: 0 <= k < |stamps.value| ==> stamps.value[k].1.Lit?
    ensures Exec(db, RowUpdate(table, key, ch, stamps)).Ok? <==>
      && SetLits(ch.after, ch.cols).Some? && SqlEscapeValue(ch.key).Some? && stamps.Some?
      && table in db && key in db[table].cols
      && (forall c :: c in ch.cols ==> c in db[table].cols)
      && (forall k :: 0 <= k < |stamps.value| ==> stamps.value[k].0 in db[table].cols)
  {
    if SetLits(ch.after, ch.cols).Some? && SqlEscapeValue(ch.key).Some? && stamps.Some? && table in db {
      var cols := db[table].cols;
      SetsFitAppend(SetLits(ch.after, ch.cols).value, stamps.value, cols);
      SetLitsFit(ch.after, ch.cols, cols);
    }
  }

  lemma SetsFitAppend(a: seq<(string, Expr)>, b: seq<(string, Expr)>, cols: seq<string>)
    ensures SetsFit(a + b, cols) <==> SetsFit(a, cols) && SetsFit(b, cols)
  {
    var ab := a + b;
    assert forall k :: 0 <= k < |a| ==> ab[k] == a[k];
    assert forall k :: 0 <= k < |b| ==> ab[|a| + k] == b[k];
    if SetsFit(a, cols) && SetsFit(b, cols) {
      forall k | 0 <= k < |ab| ensures ab[k].0 in cols && Reads(ab[k].1, cols) {
        if k >= |a| {
          assert ab[k] == b[k - |a|];
        }
      }
    }
  }

  lemma SetLitsFit(r: Row, changed: seq<string>, cols: seq<string>)
    requires SetLits(r, changed).Some?
    ensures SetsFit(SetLits(r, changed).value, cols) <==> forall c :: c in changed ==> c in cols
  {
    var sets := SetLits(r, changed).value;
    if !forall c :: c in changed ==> c in cols {
      var c :| c in changed && c !in cols;
      var k :| 0 <= k < |changed| && changed[k] == c;
      assert sets[k].0 == c;
    }
  }

  /** A successful UPDATE rewrites the rows whose key equals the change's, and no others;
      each such row gets the edited value of every changed column the stamps do not set. */
  lemma RowUpdateWrites(db: Tables, table: string, key: string, ch: Change, stamps: Option<seq<(string, Expr)>>, i: nat, c: string)
    requires Exec(db, RowUpdate(table, key, ch, stamps)).Ok?
    requires table in db && i < |db[table].rows|
    requires NoDup(ch.cols) && c in ch.cols && c !in SetCols(stamps.value)
    ensures var rows := Exec(db, RowUpdate(table, key, ch, stamps)).value[table].rows;
      var kv := SqlEscapeValue(ch.key).value;
      && |rows| == |db[table].rows|
      && (!SqlEq(Get(db[table].rows[i], key), kv) ==> rows[i] == db[table].rows[i])
      && (SqlEq(Get(db[table].rows[i], key), kv) ==> Get(rows[i], c) == SqlEscapeValue(Get(ch.after, c)).value)
  {
    var sets := SetLits(ch.after, ch.cols).value + stamps.value;
    var kv := SqlEscapeValue(ch.key).value;
    var r := db[table].rows[i];
    assert RowUpdate(table, key, ch, stamps) == Update(table, sets, ColIn(key, [kv]));
    UpdateWhereRow(db, table, sets, ColIn(key, [kv]), i);
    AnyEqIff(Get(r, key), [kv]);
    assert Holds(ColIn(key, [kv]), r) <==> SqlEq(Get(r, key), kv);
    var k := LastChangedSet(ch, stamps.value, c);
    AssignAt(r, sets, r, k);
  }

  /** In the SET list of a change, a changed column the stamps do not set is assigned
      its edited literal, and no later assignment names it. */
  lemma LastChangedSet(ch: Change, stamps: seq<(string, Expr)>, c: string) returns (k: nat)
    requires SetLits(ch.after, ch.cols).Some?
    requires NoDup(ch.cols) && c in ch.cols && c !in SetCols(stamps)
    ensures var sets := SetLits(ch.after, ch.cols).value + stamps;
      && k < |sets| && sets[k] == (c, Lit(SqlEscapeValue(Get(ch.after, c)).value))
      && forall j :: k < j < |sets| ==> sets[j].0 != sets[k].0
  {
    var sets := SetLits(ch.after, ch.cols).value + stamps;
    k :| 0 <= k < |ch.cols| && ch.cols[k] == c;
    assert sets[k] == (c, Lit(SqlEscapeValue(Get(ch.after, c)).value));
    forall j | k < j < |sets| ensures sets[j].0 != c {
      if j < |ch.cols| {
        assert sets[j].0 == ch.cols[j];
      } else {
        assert sets[j] == stamps[j - |ch.cols|];
        assert SetCols(stamps)[j - |ch.cols|] == sets[j].0;
      }
    }
  }

  // ---------------------------------------------------------------------------
  // Saving

  /** How the save button ended. */
  datatype SaveResult =
    | NoKey                                        // neither ID nor CODIGO_PRODUTO
    | Raised                                       // the diff raised
    | NoChanges                                    // "Nenhuma alteração detectada."
    | Saved(updated: nat, errors: seq<Value>)      // the counter and the keys that failed

  /** The keys of the changes whose UPDATE failed, in order. */
  function FailedKeys(chs: seq<Change>, oks: seq<bool>): (r: seq<Value>)
    requires |oks| == |chs|
    ensures |r| <= |chs|
    decreases |chs|
  {
    if chs == [] then []
    else FailedKeys(chs[..|chs| - 1], oks[..|oks| - 1]) + (if oks[|oks| - 1] then [] else [chs[|chs| - 1].key])
  }

  function CountTrue(oks: seq<bool>): (n: nat)
    ensures n <= |oks|
    decreases |oks|
  {
    if oks == [] then 0 else CountTrue(oks[..|oks| - 1]) + (if oks[|oks| - 1] then 1 else 0)
  }

  /** Every change is either counted as updated or reported as an error. */
  lemma {:induction false} SavedAccounts(chs: seq<Change>, oks: seq<bool>)
    requires |oks| == |chs|
    ensures CountTrue(oks) + |FailedKeys(chs, oks)| == |chs|
    ensures FailedKeys(chs, oks) == [] <==> forall i :: 0 <= i < |oks| ==> oks[i]
    decreases |chs|
  {
    if chs != [] {
      SavedAccounts(chs[..|chs| - 1], oks[..|oks| - 1]);
      assert forall i :: 0 <= i < |oks| - 1 ==> oks[..|oks| - 1][i] == oks[i];
    }
  }

  /** The "Salvar alterações" button: the key column, the diff, then one UPDATE per
      change, each committed on its own; a failed UPDATE is recorded and the loop
      goes on. `stamps` is the page's stamp list, or none when its literal does not
      parse. */
  method SaveEdits(db: Db, table: string, before: Table, edited: Table, disabled: seq<string>,
                   stamps: Option<seq<(string, Expr)>>, faults: set<nat>) returns (res: SaveResult)
    modifies db
    ensures res == NoKey <==> KeyColumn(edited.cols).None?
    ensures KeyColumn(edited.cols).Some? ==>
      var chs := Changes(before, edited, KeyColumn(edited.cols).value, disabled);
      && (res == Raised <==> chs.Err?)
      && (res == NoChanges <==> chs == Ok([]))
      && (res.Saved? ==>
            var stmts := RowUpdates(table, KeyColumn(edited.cols).value, chs.value, stamps);
            var oks := EachOks(old(db.tables), stmts, faults, |stmts|);
            && db.tables == EachState(old(db.tables), stmts, faults, |stmts|)
            && res.updated == CountTrue(oks)
            && res.errors == FailedKeys(chs.value, oks))
    ensures !res.Saved? ==> db.tables == old(db.tables)
  {
    var key := KeyColumn(edited.cols);
    if key.None? {
      return NoKey;
    }
    var chs := DetectChanges(before, edited, key.value, disabled);
    if chs.Err? {
      return Raised;
    }
    if chs.value == [] {
      return NoChanges;
    }
    var stmts := RowUpdates(table, key.value, chs.value, stamps);
    var oks := db.RunEach(stmts, faults);
    var updated, errors := Tally(chs.value, oks);
    res := Saved(updated, errors);
  }

  /** `updated += 1` on success, `errors.append((key_val, str(e)))` on failure. */
  method Tally(chs: seq<Change>, oks: seq<bool>) returns (updated: nat, errors: seq<Value>)
    requires |oks| == |chs|
    ensures updated == CountTrue(oks) && errors == FailedKeys(chs, oks)
  {
    updated := 0;
    errors := [];
    var i := 0;
    while i < |oks|
      invariant 0 <= i <= |oks|
      invariant updated == CountTrue(oks[..i])
      invariant errors == FailedKeys(chs[..i], oks[..i])
    {
      assert oks[..i + 1][..i] == oks[..i];
      assert chs[..i + 1][..i] == chs[..i];
      if oks[i] {
        updated := updated + 1;
      } else {
        errors := errors + [chs[i].key];
      }
      i := i + 1;
    }
    assert oks[..i] == oks && chs[..i] == chs;
  }

  // ---------------------------------------------------------------------------
  // The two pages

  /** The approved-table page locks its registration, validation and update stamps. */
  const LOCK_APROVADOS: seq<string> :=
    ["ID", "DATA_CADASTRO", "USUARIO_CADASTRO", "DATA_VALIDACAO", "USUARIO_VALIDADOR", "DATA_ATUALIZACAO", "USUARIO_ATUALIZACAO"]

  /** The pending-table page locks the ID and the two dates. */
  const LOCK_PENDENTES: seq<string> := ["ID", "DATA_CADASTRO", "DATA_ATUALIZACAO"]

  /** `[c for c in lock_cols if c in df_view.columns]` */
  function Disabled(lock: seq<string>, viewCols: seq<string>): seq<string> {
    Present(lock, viewCols)
  }

  /** `user["username"]` when the session user is a dict holding it. */
  function UpdatingUser(user: Option<Row>): Value {
    if user.Some? && "username" in user.value then user.value["username"] else VNull
  }

  /** The approved-table stamps: `DATA_ATUALIZACAO = CURRENT_TIMESTAMP()` when the table has
      the column, and the updating user when it has that column and a user is known. */
  function ApprovedStamps(tableCols: seq<string>, now: Value, user: Option<Row>): Option<seq<(string, Expr)>> {
    var u := UpdatingUser(user);
    var data: seq<(string, Expr)> := if "DATA_ATUALIZACAO" in tableCols then [("DATA_ATUALIZACAO", Lit(now))] else [];
    if "USUARIO_ATUALIZACAO" in tableCols && Truthy(u) then
      match SqlEscapeValue(u)
      case Some(v) => Some(data + [("USUARIO_ATUALIZACAO", Lit(v))])
      case None => None
    else Some(data)
  }

  /** The pending-table stamp: `DATA_ATUALIZACAO = 'today'` when the table has the column. */
  function PendingStamps(tableCols: seq<string>, today: string): Option<seq<(string, Expr)>> {
    Some(if "DATA_ATUALIZACAO" in tableCols then [("DATA_ATUALIZACAO", Lit(VStr(today)))] else [])
  }

  /** A column of a locked list is never reported as changed. */
  lemma LockedNeverChanged(ch: Change, beforeRows: seq<Row>, afterRows: seq<Row>, key: string, cols: seq<string>, lock: seq<string>, c: string)
    requires ChangeOf(ch, beforeRows, afterRows, key, Comparable(cols, Disabled(lock, cols), key))
    requires c in lock
    ensures c !in ch.cols
  {
  }

  /** On the pending-table page ID, DATA_CADASTRO and DATA_ATUALIZACAO are never reported
      as changed. */
  lemma PendingLocksDates(ch: Change, beforeRows: seq<Row>, afterRows: seq<Row>, key: string, cols: seq<string>)
    requires ChangeOf(ch, beforeRows, afterRows, key, Comparable(cols, Disabled(LOCK_PENDENTES, cols), key))
    ensures "ID" !in ch.cols && "DATA_CADASTRO" !in ch.cols && "DATA_ATUALIZACAO" !in ch.cols
  {
    LockedNeverChanged(ch, beforeRows, afterRows, key, cols, LOCK_PENDENTES, "ID");
    LockedNeverChanged(ch, beforeRows, afterRows, key, cols, LOCK_PENDENTES, "DATA_CADASTRO");
    LockedNeverChanged(ch, beforeRows, afterRows, key, cols, LOCK_PENDENTES, "DATA_ATUALIZACAO");
  }

  /** The approved-table stamps set only DATA_ATUALIZACAO (the time given) and
      USUARIO_ATUALIZACAO (the user's literal), each only where the table has it; the
      user is stamped exactly when one is known. */
  lemma ApprovedStampsShape(tableCols: seq<string>, now: Value, user: Option<Row>)
    requires ApprovedStamps(tableCols, now, user).Some?
    ensures var s := ApprovedStamps(tableCols, now, user).value;
      && (forall k :: 0 <= k < |s| ==> s[k].1.Lit? && s[k].0 in tableCols)
      && (forall c :: c in SetCols(s) ==> c == "DATA_ATUALIZACAO" || c == "USUARIO_ATUALIZACAO")
      && (("DATA_ATUALIZACAO", Lit(now)) in s <==> "DATA_ATUALIZACAO" in tableCols)
      && ("USUARIO_ATUALIZACAO" in SetCols(s) <==> "USUARIO_ATUALIZACAO" in tableCols && Truthy(UpdatingUser(user)))
  {
    var s := ApprovedStamps(tableCols, now, user).value;
    forall c | c in SetCols(s) ensures c == "DATA_ATUALIZACAO" || c == "USUARIO_ATUALIZACAO" {
      var k :| 0 <= k < |s| && SetCols(s)[k] == c;
    }
    if "USUARIO_ATUALIZACAO" in tableCols && Truthy(UpdatingUser(user)) {
      assert SetCols(s)[|s| - 1] == "USUARIO_ATUALIZACAO";
    }
  }

  /** The stamps of either page name only locked columns, so a changed column is never
      overwritten by a stamp. */
  lemma StampsAfterChanges(ch: Change, beforeRows: seq<Row>, afterRows: seq<Row>, key: string, cols: seq<string>, lock: seq<string>, stamps: seq<(string, Expr)>, c: string)
    requires ChangeOf(ch, beforeRows, afterRows, key, Comparable(cols, Disabled(lock, cols), key))
    requires forall s :: s in SetCols(stamps) ==> s in lock
    requires c in ch.cols
    ensures c !in SetCols(stamps)
  {
    if c in SetCols(stamps) {
      LockedNeverChanged(ch, beforeRows, afterRows, key, cols, lock, c);
    }
  }

  lemma ApprovedStampsLocked(tableCols: seq<string>, now: Value, user: Option<Row>)
    requires ApprovedStamps(tableCols, now, user).Some?
    ensures forall s :: s in SetCols(ApprovedStamps(tableCols, now, user).value) ==> s in LOCK_APROVADOS
  {
    ApprovedStampsShape(tableCols, now, user);
    assert "DATA_ATUALIZACAO" in LOCK_APROVADOS && "USUARIO_ATUALIZACAO" in LOCK_APROVADOS by {
      assert LOCK_APROVADOS[5] == "DATA_ATUALIZACAO" && LOCK_APROVADOS[6] == "USUARIO_ATUALIZACAO";
    }
  }

  lemma PendingStampsLocked(tableCols: seq<string>, today: string)
    ensures forall s :: s in SetCols(PendingStamps(tableCols, today).value) ==> s in LOCK_PENDENTES
  {
    var s := PendingStamps(tableCols, today).value;
    forall c | c in SetCols(s) ensures c in LOCK_PENDENTES {
      assert LOCK_PENDENTES[2] == "DATA_ATUALIZACAO";
    }
  }
}
