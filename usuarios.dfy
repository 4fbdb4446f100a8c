/** The user administration page: the roles a save accepts, the users a save
    rewrites (a left merge of the edited grid on the original by USERNAME and a
    column-by-column string comparison), the delete list that spares the signed-in
    user, and the checks of the add-user form. */
module Usuarios {
  import opened Wrappers
  import opened Text
  import opened Cells
  import opened SqlText
  import opened Store
  import opened Columns

  const ROLES: seq<string> := ["USER", "OPERACIONAL", "ADMIN"]
  const DEFAULT_PASSWORD: string := "123"
  const KEY: string := "USERNAME"

  // ---------------------------------------------------------------------------
  // The grid

  /** The page stops unless the users table has USERNAME and ROLE. */
  predicate UsersPageOk(cols: seq<string>) {
    KEY in cols && "ROLE" in cols
  }

  /** `compare_cols`: ROLE and NAME, when the grid has them. */
  function Compare(cols: seq<string>): (r: seq<string>)
    ensures forall c :: c in r <==> c in ["ROLE", "NAME"] && c in cols
  {
    Present(["ROLE", "NAME"], cols)
  }

  /** `isin(ROLES_VALIDAS)`: only one of the three role names, as a string. */
  predicate RoleValid(v: Value) {
    v.VStr? && v.s in ROLES
  }

  predicate AllRolesValid(rows: seq<Row>) {
    forall i :: 0 <= i < |rows| ==> RoleValid(Get(rows[i], "ROLE"))
  }

  // ---------------------------------------------------------------------------
  // The delete list

  /** A row whose "Excluir?" box equals True and whose USERNAME is not missing. */
  predicate Marked(r: Row) {
    PyEq(Get(r, "EXCLUIR"), VBool(true)) && !IsNa(Get(r, KEY))
  }

  /** `to_delete`: the marked usernames as strings, in grid order. */
  function ToDelete(rows: seq<Row>): seq<string>
    decreases |rows|
  {
    if rows == [] then []
    else (if Marked(rows[0]) then [PyStr(Get(rows[0], KEY))] else []) + ToDelete(rows[1..])
  }

  lemma {:induction false} ToDeleteIff(rows: seq<Row>, u: string)
    ensures u in ToDelete(rows) <==> exists i :: 0 <= i < |rows| && Marked(rows[i]) && PyStr(Get(rows[i], KEY)) == u
    decreases |rows|
  {
    if rows != [] {
      ToDeleteIff(rows[1..], u);
      if exists i :: 0 <= i < |rows[1..]| && Marked(rows[1..][i]) && PyStr(Get(rows[1..][i], KEY)) == u {
        var i :| 0 <= i < |rows[1..]| && Marked(rows[1..][i]) && PyStr(Get(rows[1..][i], KEY)) == u;
        assert rows[i + 1] == rows[1..][i];
      }
      if exists i :: 0 <= i < |rows| && Marked(rows[i]) && PyStr(Get(rows[i], KEY)) == u {
        var i :| 0 <= i < |rows| && Marked(rows[i]) && PyStr(Get(rows[i], KEY)) == u;
        if i > 0 {
          assert rows[1..][i - 1] == rows[i];
        }
      }
    }
  }

  // ---------------------------------------------------------------------------
  // The left merge on USERNAME

  /** An edited row beside the original row it merged with (`None`: no original row
      has its username, so every `_OLD` column is missing). */
  datatype Pair = Pair(cur: Row, orig: Option<Row>)

  /** How `merge` pairs keys: equal values, or both missing. */
  predicate KeyMatch(a: Value, b: Value) {
    if IsNa(a) || IsNa(b) then IsNa(a) && IsNa(b) else PyEq(a, b)
  }

  /** The original rows with key `k`, in their order. */
  function Matches(original: seq<Row>, k: Value): seq<Row>
    decreases |original|
  {
    if original == [] then []
    else (if KeyMatch(k, Get(original[0], KEY)) then [original[0]] else []) + Matches(original[1..], k)
  }

  lemma {:induction false} MatchesIff(original: seq<Row>, k: Value, o: Row)
    ensures o in Matches(original, k) <==> o in original && KeyMatch(k, Get(o, KEY))
    decreases |original|
  {
    if original != [] {
      MatchesIff(original[1..], k, o);
      assert original == [original[0]] + original[1..];
    }
  }

  /** The merged rows of one edited row. */
  function MergeOne(e: Row, original: seq<Row>): (r: seq<Pair>)
    ensures r != []
  {
    var ms := Matches(original, Get(e, KEY));
    if ms == [] then [Pair(e, None)]
    else seq(|ms|, j requires 0 <= j < |ms| => Pair(e, Some(ms[j])))
  }

  /** `edited.merge(original, on="USERNAME", how="left", suffixes=("", "_OLD"))` */
  function Merge(edited: seq<Row>, original: seq<Row>): seq<Pair>
    decreases |edited|
  {
    if edited == [] then [] else MergeOne(edited[0], original) + Merge(edited[1..], original)
  }

  lemma MergeOneIff(e: Row, original: seq<Row>, p: Pair)
    ensures p in MergeOne(e, original) <==>
      && p.cur == e
      && (p.orig.Some? ==> p.orig.value in original && KeyMatch(Get(e, KEY), Get(p.orig.value, KEY)))
      && (p.orig.None? ==> forall o :: o in original ==> !KeyMatch(Get(e, KEY), Get(o, KEY)))
  {
    var ms := Matches(original, Get(e, KEY));
    forall o ensures o in ms <==> o in original && KeyMatch(Get(e, KEY), Get(o, KEY)) {
      MatchesIff(original, Get(e, KEY), o);
    }
    if p.orig.Some? && p.cur == e && p.orig.value in ms {
      var j :| 0 <= j < |ms| && ms[j] == p.orig.value;
      assert MergeOne(e, original)[j] == p;
    }
    if ms != [] && p.orig.None? && p.cur == e {
      assert ms[0] in ms;
    }
  }

  /** Every merged row is an edited row beside a matching original row, or beside
      nothing when no original row matches. */
  lemma {:induction false} MergeSound(edited: seq<Row>, original: seq<Row>, p: Pair)
    requires p in Merge(edited, original)
    ensures p.cur in edited
    ensures p.orig.Some? ==> p.orig.value in original && KeyMatch(Get(p.cur, KEY), Get(p.orig.value, KEY))
    ensures p.orig.None? ==> forall o :: o in original ==> !KeyMatch(Get(p.cur, KEY), Get(o, KEY))
    decreases |edited|
  {
    if p in MergeOne(edited[0], original) {
      MergeOneIff(edited[0], original, p);
    } else {
      MergeSound(edited[1..], original, p);
    }
  }

  /** Every edited row appears beside each original row with its key, and beside
      nothing when there is none: a left join. */
  lemma {:induction false} MergeComplete(edited: seq<Row>, original: seq<Row>, e: Row, orig: Option<Row>)
    requires e in edited
    requires orig.Some? ==> orig.value in original && KeyMatch(Get(e, KEY), Get(orig.value, KEY))
    requires orig.None? ==> forall o :: o in original ==> !KeyMatch(Get(e, KEY), Get(o, KEY))
    ensures Pair(e, orig) in Merge(edited, original)
    decreases |edited|
  {
    if e == edited[0] {
      MergeOneIff(e, original, Pair(e, orig));
    } else {
      MergeComplete(edited[1..], original, e, orig);
    }
  }

  // ---------------------------------------------------------------------------
  // Change detection

  /** `merged[c + "_OLD"]` */
  function OldAt(p: Pair, c: string): Value {
    if p.orig.None? then VNull else Get(p.orig.value, c)
  }

  /** `a.astype("string") != b.astype("string")`: missing when either side is missing. */
  function StrNe(a: Value, b: Value): (r: Option<bool>)
    ensures r.None? <==> IsNa(a) || IsNa(b)
    ensures r == Some(true) <==> !IsNa(a) && !IsNa(b) && PyStr(a) != PyStr(b)
  {
    match (AsString(a), AsString(b))
    case (Some(x), Some(y)) => Some(x != y)
    case _ => None
  }

  /** `|` on nullable booleans: true wins, then missing. */
  function Or3(a: Option<bool>, b: Option<bool>): Option<bool> {
    if a == Some(true) || b == Some(true) then Some(true)
    else if a.None? || b.None? then None
    else Some(false)
  }

  /** The comparison of one column of a merged row, as the page writes it. */
  function ColumnNe(p: Pair, c: string): Option<bool> {
    StrNe(Get(p.cur, c), OldAt(p, c))
  }

  /** `changed_mask` for one merged row after the columns `cols`, starting from `False`. */
  function MaskOf(p: Pair, cols: seq<string>): Option<bool>
    decreases |cols|
  {
    if cols == [] then Some(false)
    else Or3(MaskOf(p, cols[..|cols| - 1]), ColumnNe(p, cols[|cols| - 1]))
  }

  /** `merged.loc[changed_mask]` keeps a row only where the mask is true; a missing
      mask entry counts as false. */
  predicate Changed(p: Pair, cols: seq<string>) {
    MaskOf(p, cols) == Some(true)
  }

  /** A merged row is selected exactly when some compared column holds text on both
      sides and the two texts differ. */
  lemma {:induction false} ChangedIff(p: Pair, cols: seq<string>)
    ensures Changed(p, cols) <==> exists k :: 0 <= k < |cols| && ColumnNe(p, cols[k]) == Some(true)
    decreases |cols|
  {
    if cols != [] {
      var init := cols[..|cols| - 1];
      ChangedIff(p, init);
      if exists k :: 0 <= k < |init| && ColumnNe(p, init[k]) == Some(true) {
        var k :| 0 <= k < |init| && ColumnNe(p, init[k]) == Some(true);
        assert cols[k] == init[k];
      }
      if exists k :: 0 <= k < |cols| && ColumnNe(p, cols[k]) == Some(true) {
        var k :| 0 <= k < |cols| && ColumnNe(p, cols[k]) == Some(true);
        if k < |init| {
          assert init[k] == cols[k];
        }
      }
    }
  }

  /** The comparison the page evidently means: a missing value and a text differ. */
  predicate ChangedIntended(p: Pair, cols: seq<string>) {
    exists k :: 0 <= k < |cols| && AsString(Get(p.cur, cols[k])) != AsString(OldAt(p, cols[k]))
  }

  /** A name typed into a user that had none is not detected as a change. */
  lemma NameFromNullMissed()
    ensures var p := Pair(map[KEY := VStr("ana"), "ROLE" := VStr("USER"), "NAME" := VStr("Ana")],
                          Some(map[KEY := VStr("ana"), "ROLE" := VStr("USER"), "NAME" := VNull]));
      !Changed(p, ["ROLE", "NAME"]) && ChangedIntended(p, ["ROLE", "NAME"])
  {
    var p := Pair(map[KEY := VStr("ana"), "ROLE" := VStr("USER"), "NAME" := VStr("Ana")],
                  Some(map[KEY := VStr("ana"), "ROLE" := VStr("USER"), "NAME" := VNull]));
    var cols := ["ROLE", "NAME"];
    assert cols[..1] == ["ROLE"] && cols[..1][..0] == [];
    assert ColumnNe(p, "ROLE") == Some(false) && ColumnNe(p, "NAME") == None;
    assert MaskOf(p, ["ROLE"]) == Some(false);
    assert MaskOf(p, cols) == None;
    assert AsString(Get(p.cur, cols[1])) != AsString(OldAt(p, cols[1]));
  }

  /** What the page detects is a change in the intended sense ... */
  lemma ChangedIsIntended(p: Pair, cols: seq<string>)
    requires Changed(p, cols)
    ensures ChangedIntended(p, cols)
  {
    ChangedIff(p, cols);
    var k :| 0 <= k < |cols| && ColumnNe(p, cols[k]) == Some(true);
    assert AsString(Get(p.cur, cols[k])) != AsString(OldAt(p, cols[k]));
  }

  /** ... and where no compared cell is missing the two agree. */
  lemma ChangedAgreesWithoutNa(p: Pair, cols: seq<string>)
    requires forall k :: 0 <= k < |cols| ==> !IsNa(Get(p.cur, cols[k])) && !IsNa(OldAt(p, cols[k]))
    ensures Changed(p, cols) <==> ChangedIntended(p, cols)
  {
    ChangedIff(p, cols);
    if ChangedIntended(p, cols) {
      var k :| 0 <= k < |cols| && AsString(Get(p.cur, cols[k])) != AsString(OldAt(p, cols[k]));
      assert ColumnNe(p, cols[k]) == Some(true);
    }
  }

  /** `merged.loc[changed_mask]`, in merge order. */
  function ChangedPairs(merged: seq<Pair>, cols: seq<string>): seq<Pair>
    decreases |merged|
  {
    if merged == [] then []
    else (if Changed(merged[0], cols) then [merged[0]] else []) + ChangedPairs(merged[1..], cols)
  }

  lemma {:induction false} ChangedPairsIff(merged: seq<Pair>, cols: seq<string>, p: Pair)
    ensures p in ChangedPairs(merged, cols) <==> p in merged && Changed(p, cols)
    decreases |merged|
  {
    if merged != [] {
      ChangedPairsIff(merged[1..], cols, p);
      assert merged == [merged[0]] + merged[1..];
    }
  }

  /** The rows a save rewrites. */
  function Changes(cols: seq<string>, edited: seq<Row>, original: seq<Row>): seq<Pair> {
    ChangedPairs(Merge(edited, original), Compare(cols))
  }

  /** A user is rewritten exactly when a merged row of theirs differs in a compared
      column; a row with no original counterpart never is, since all its old values
      are missing. */
  lemma ChangesIff(cols: seq<string>, edited: seq<Row>, original: seq<Row>, p: Pair)
    ensures p in Changes(cols, edited, original) <==>
      p in Merge(edited, original) && exists k :: 0 <= k < |Compare(cols)| && ColumnNe(p, Compare(cols)[k]) == Some(true)
    ensures p in Changes(cols, edited, original) ==> p.orig.Some?
  {
    ChangedPairsIff(Merge(edited, original), Compare(cols), p);
    ChangedIff(p, Compare(cols));
  }

  /** The rows `mask` marks true, in order. */
  function Picked(merged: seq<Pair>, mask: seq<Option<bool>>): seq<Pair>
    requires |mask| == |merged|
    decreases |merged|
  {
    if merged == [] then []
    else (if mask[0] == Some(true) then [merged[0]] else []) + Picked(merged[1..], mask[1..])
  }

  lemma {:induction false} PickedChanged(merged: seq<Pair>, mask: seq<Option<bool>>, cols: seq<string>)
    requires |mask| == |merged| && forall i :: 0 <= i < |merged| ==> mask[i] == MaskOf(merged[i], cols)
    ensures Picked(merged, mask) == ChangedPairs(merged, cols)
    decreases |merged|
  {
    if merged != [] {
      assert forall i :: 0 <= i < |merged[1..]| ==> mask[1..][i] == mask[i + 1] && merged[1..][i] == merged[i + 1];
      PickedChanged(merged[1..], mask[1..], cols);
    }
  }

  /** The `for c in compare_cols` loop building `changed_mask` over all merged rows. */
  method ChangeMask(merged: seq<Pair>, cols: seq<string>) returns (mask: seq<Option<bool>>)
    ensures |mask| == |merged|
    ensures forall i :: 0 <= i < |merged| ==> mask[i] == MaskOf(merged[i], cols)
  {
    mask := seq(|merged|, i requires 0 <= i < |merged| => Some(false));
    for j := 0 to |cols|
      invariant |mask| == |merged|
      invariant forall i :: 0 <= i < |merged| ==> mask[i] == MaskOf(merged[i], cols[..j])
    {
      var c := cols[j];
      assert cols[..j + 1][..j] == cols[..j];
      mask := seq(|merged|, i requires 0 <= i < |merged| => Or3(mask[i], ColumnNe(merged[i], c)));
    }
    assert cols[..|cols|] == cols;
  }

  // ---------------------------------------------------------------------------
  // The UPDATE statements

  /** `'{_esc(str(v))}'` reads back as `str(v)`. */
  lemma EscStrLiteral(s: string)
    ensures Esc(VStr(s)).Some? && ReadStd(Quote(Esc(VStr(s)).value)) == Some(VStr(s))
  {
    var t := Quote(Esc(VStr(s)).value);
    assert t[1..|t| - 1] == Esc(VStr(s)).value;
    assert t[0] == '\'';
  }

  /** `NAME = NULL` for a missing name, else the name as text. */
  function NameValue(v: Value): (r: Value)
    ensures r == VNull <==> IsNa(v)
  {
    if IsNa(v) then VNull else VStr(PyStr(v))
  }

  function UserSets(p: Pair, compare: seq<string>): seq<(string, Expr)> {
    (if "ROLE" in compare then [("ROLE", Lit(VStr(PyStr(Get(p.cur, "ROLE")))))] else [])
    + (if "NAME" in compare then [("NAME", Lit(NameValue(Get(p.cur, "NAME"))))] else [])
  }

  /** `UPDATE users SET ... WHERE USERNAME = '<username>'` */
  function UserUpdate(table: string, p: Pair, compare: seq<string>): Stmt {
    Update(table, UserSets(p, compare), ColIn(KEY, [VStr(PyStr(Get(p.cur, KEY)))]))
  }

  function Updates(table: string, changes: seq<Pair>, compare: seq<string>): (r: seq<Stmt>)
    ensures |r| == |changes|
  {
    seq(|changes|, i requires 0 <= i < |changes| => UserUpdate(table, changes[i], compare))
  }

  /** A successful UPDATE rewrites ROLE and NAME, as edited, in the rows holding the
      username, and leaves every other cell and every other row as it was. */
  lemma UserUpdateWrites(db: Tables, table: string, p: Pair, compare: seq<string>, i: nat, c: string)
    requires Exec(db, UserUpdate(table, p, compare)).Ok?
    requires table in db && i < |db[table].rows|
    ensures var rows := Exec(db, UserUpdate(table, p, compare)).value[table].rows;
      var r := db[table].rows[i];
      && |rows| == |db[table].rows|
      && (!SqlEq(Get(r, KEY), VStr(PyStr(Get(p.cur, KEY)))) ==> rows[i] == r)
      && (SqlEq(Get(r, KEY), VStr(PyStr(Get(p.cur, KEY)))) ==>
            && (c == "ROLE" && c in compare ==> Get(rows[i], c) == VStr(PyStr(Get(p.cur, "ROLE"))))
            && (c == "NAME" && c in compare ==> Get(rows[i], c) == NameValue(Get(p.cur, "NAME")))
            && (c != "ROLE" && c != "NAME" ==> Get(rows[i], c) == Get(r, c)))
  {
    var sets := UserSets(p, compare);
    var r := db[table].rows[i];
    var kv := VStr(PyStr(Get(p.cur, KEY)));
    AnyEqIff(Get(r, KEY), [kv]);
    assert Holds(ColIn(KEY, [kv]), r) <==> SqlEq(Get(r, KEY), kv);
    AssignGet(r, sets, r, c);
    if c == "ROLE" && c in compare {
      assert sets[0] == ("ROLE", Lit(VStr(PyStr(Get(p.cur, "ROLE")))));
    }
    if c == "NAME" && c in compare {
      var k := |sets| - 1;
      assert sets[k] == ("NAME", Lit(NameValue(Get(p.cur, "NAME"))));
    }
    if c != "ROLE" && c != "NAME" {
      assert c !in SetCols(sets);
    }
  }

  // ---------------------------------------------------------------------------
  // Saving

  datatype SaveOutcome = BadRole | NoChanges | Saved(count: nat) | SaveFailed(done: nat)

  /** "Salvar alterações": refuse any invalid role; otherwise one UPDATE per changed
      merged row, each committed on its own, stopping at the first failure. */
  method SaveUsers(db: Db, table: string, cols: seq<string>, edited: seq<Row>, original: seq<Row>, faults: set<nat>)
    returns (out: SaveOutcome)
    requires UsersPageOk(cols)
    modifies db
    ensures out == BadRole <==> !AllRolesValid(edited)
    ensures out == NoChanges <==> AllRolesValid(edited) && Changes(cols, edited, original) == []
    ensures out.BadRole? || out.NoChanges? ==> db.tables == old(db.tables)
    ensures var stmts := Updates(table, Changes(cols, edited, original), Compare(cols));
      out.Saved? ==>
        && out.count == |stmts| > 0
        && FaultFree(|stmts|, faults) && RunAll(old(db.tables), stmts).Ok?
        && db.tables == RunAll(old(db.tables), stmts).value
    ensures var stmts := Updates(table, Changes(cols, edited, original), Compare(cols));
      out.SaveFailed? ==>
        && out.done < |stmts|
        && RunAll(old(db.tables), stmts[..out.done]).Ok?
        && db.tables == RunAll(old(db.tables), stmts[..out.done]).value
        && (out.done in faults || Exec(db.tables, stmts[out.done]).Err?)
  {
    if !AllRolesValid(edited) {
      return BadRole;
    }
    var compare := Compare(cols);
    var merged := Merge(edited, original);
    var mask := ChangeMask(merged, compare);
    var changes := Picked(merged, mask);
    PickedChanged(merged, mask, compare);
    if changes == [] {
      return NoChanges;
    }
    var stmts := Updates(table, changes, compare);
    var done := db.RunUntilFailure(stmts, faults);
    if done == |stmts| {
      assert stmts[..done] == stmts;
      return Saved(|changes|);
    }
    return SaveFailed(done);
  }

  // ---------------------------------------------------------------------------
  // Deleting

  /** The signed-in username, trimmed and lower-cased; "" when there is none or
      when reading it raises. */
  function Me(user: Option<Row>): string {
    match user
    case None => ""
    case Some(u) =>
      var v := Get(u, "username");
      if !Truthy(v) then "" else if v.VStr? then Lower(Strip(v.s)) else ""
  }

  /** The delete button is enabled only for the typed word EXCLUIR and a non-empty list. */
  predicate CanDelete(confirm: string, toDelete: seq<string>) {
    Upper(Strip(confirm)) == "EXCLUIR" && |toDelete| > 0
  }

  /** `safe_list`: the marked usernames that are not the signed-in user. */
  function Safe(toDelete: seq<string>, me: string): seq<string>
    decreases |toDelete|
  {
    if toDelete == [] then []
    else (if Lower(Strip(toDelete[0])) != me then [toDelete[0]] else []) + Safe(toDelete[1..], me)
  }

  lemma {:induction false} SafeIff(toDelete: seq<string>, me: string, u: string)
    ensures u in Safe(toDelete, me) <==> u in toDelete && Lower(Strip(u)) != me
    decreases |toDelete|
  {
    if toDelete != [] {
      SafeIff(toDelete[1..], me, u);
      assert toDelete == [toDelete[0]] + toDelete[1..];
    }
  }

  function DeleteWhere(safe: seq<string>): Where {
    ColIn(KEY, seq(|safe|, k requires 0 <= k < |safe| => VStr(safe[k])))
  }

  /** The row of the signed-in user survives the DELETE, and so does every row whose
      username was not marked; a row whose username is on the list goes. */
  lemma DeleteKeeps(rows: seq<Row>, toDelete: seq<string>, me: string, r: Row)
    requires r in rows
    ensures Get(r, KEY).VStr? && Lower(Strip(Get(r, KEY).s)) == me ==> r in Remaining(rows, DeleteWhere(Safe(toDelete, me)))
    ensures Get(r, KEY).VStr? && Get(r, KEY).s !in toDelete ==> r in Remaining(rows, DeleteWhere(Safe(toDelete, me)))
    ensures Get(r, KEY).VStr? && Get(r, KEY).s in Safe(toDelete, me) ==> r !in Remaining(rows, DeleteWhere(Safe(toDelete, me)))
  {
    var safe := Safe(toDelete, me);
    var w := DeleteWhere(safe);
    AnyEqIff(Get(r, KEY), w.vals);
    FilterMember(rows, w, false, r);
    if Get(r, KEY).VStr? {
      var x := Get(r, KEY).s;
      SafeIff(toDelete, me, x);
      if Holds(w, r) {
        var k :| 0 <= k < |w.vals| && SqlEq(Get(r, KEY), w.vals[k]);
        assert w.vals[k] == VStr(safe[k]);
        SafeIff(toDelete, me, safe[k]);
        assert safe[k] == x;
      }
      if x in safe {
        var k :| 0 <= k < |safe| && safe[k] == x;
        assert SqlEq(Get(r, KEY), w.vals[k]);
      }
    }
  }

  datatype DeleteOutcome = DeleteDisabled | OnlySelf | Deleted(count: nat) | DeleteFailed

  /** "Excluir selecionados": drop the signed-in user from the list, refuse an empty
      remainder, and delete the rest with one statement. */
  method DeleteUsers(db: Db, table: string, edited: seq<Row>, confirm: string, user: Option<Row>, faults: set<nat>)
    returns (out: DeleteOutcome)
    modifies db
    ensures out == DeleteDisabled <==> !CanDelete(confirm, ToDelete(edited))
    ensures var safe := Safe(ToDelete(edited), Me(user));
      out == OnlySelf <==> CanDelete(confirm, ToDelete(edited)) && safe == []
    ensures var s := Delete(table, DeleteWhere(Safe(ToDelete(edited), Me(user))));
      out.Deleted? ==>
        && 0 !in faults && Exec(old(db.tables), s).Ok?
        && db.tables == Exec(old(db.tables), s).value
        && out.count == |Safe(ToDelete(edited), Me(user))|
    ensures var s := Delete(table, DeleteWhere(Safe(ToDelete(edited), Me(user))));
      out == DeleteFailed ==> (0 in faults || Exec(old(db.tables), s).Err?)
    ensures !out.Deleted? ==> db.tables == old(db.tables)
  {
    var toDelete := ToDelete(edited);
    if !CanDelete(confirm, toDelete) {
      return DeleteDisabled;
    }
    var safe := Safe(toDelete, Me(user));
    if safe == [] {
      return OnlySelf;
    }
    var s := Delete(table, DeleteWhere(safe));
    ghost var t0 := db.tables;
    RunAllOne(t0, s);
    assert [s][..0] == [] && [s][..1] == [s];
    var done := db.RunUntilFailure([s], faults);
    if done == 1 {
      return Deleted(|safe|);
    }
    return DeleteFailed;
  }

  // ---------------------------------------------------------------------------
  // Adding

  /** The add-user form: username, name, role, the "set a password now" box, and the
      password with its confirmation. */
  datatype AddForm = AddForm(username: string, name: string, role: string, custom: bool, pwd: string, conf: string)

  datatype AddOutcome =
    | NoUsername
    | InvalidRole
    | Duplicate
    | PasswordBlank
    | PasswordMismatch
    | PasswordShort
    | Create(username: string, name: string, role: string, password: string)

  /** The first three checks pass: a username, a valid role, and a username not yet taken. */
  predicate IdentityOk(f: AddForm, existing: set<string>) {
    Strip(f.username) != "" && Upper(Strip(f.role)) in ROLES && Strip(f.username) !in existing
  }

  /** The checks of "Adicionar", in the page's order; `existing` is the usernames the
      table holds. A user is created exactly when every check passes, and each
      rejection is named by the first check that fails. */
  function AddUser(f: AddForm, existing: set<string>): (out: AddOutcome)
    ensures out.Create? <==>
      && Strip(f.username) != ""
      && Upper(Strip(f.role)) in ROLES
      && Strip(f.username) !in existing
      && (f.custom ==> Strip(f.pwd) != "" && Strip(f.pwd) == Strip(f.conf) && |Strip(f.pwd)| >= 4)
    ensures out == NoUsername <==> Strip(f.username) == ""
    ensures out == InvalidRole <==> Strip(f.username) != "" && Upper(Strip(f.role)) !in ROLES
    ensures out == Duplicate <==>
      Strip(f.username) != "" && Upper(Strip(f.role)) in ROLES && Strip(f.username) in existing
    ensures out == PasswordBlank <==>
      IdentityOk(f, existing) && f.custom && (Strip(f.pwd) == "" || Strip(f.conf) == "")
    ensures out == PasswordMismatch <==>
      IdentityOk(f, existing) && f.custom && Strip(f.pwd) != "" && Strip(f.conf) != "" && Strip(f.pwd) != Strip(f.conf)
    ensures out == PasswordShort <==>
      IdentityOk(f, existing) && f.custom && Strip(f.pwd) != "" && Strip(f.pwd) == Strip(f.conf) && |Strip(f.pwd)| < 4
  {
    var u := Strip(f.username);
    var n := Strip(f.name);
    var r := Upper(Strip(f.role));
    if u == "" then NoUsername
    else if r !in ROLES then InvalidRole
    else if u in existing then Duplicate
    else if f.custom then
      var p := Strip(f.pwd);
      var c := Strip(f.conf);
      if p == "" || c == "" then PasswordBlank
      else if p != c then PasswordMismatch
      else if |p| < 4 then PasswordShort
      else Create(u, if n == "" then u else n, r, p)
    else Create(u, if n == "" then u else n, r, DEFAULT_PASSWORD)
  }

  /** What is created: a trimmed, new, non-empty username; a valid role; a name that
      falls back to the username; the typed password (at least four characters and
      equal to its confirmation) or the default one. */
  lemma AddUserCreated(f: AddForm, existing: set<string>)
    requires AddUser(f, existing).Create?
    ensures var c := AddUser(f, existing);
      && c.username != "" && Strip(c.username) == c.username && c.username !in existing
      && c.role in ROLES
      && c.name == (if Strip(f.name) == "" then c.username else Strip(f.name))
      && c.name != ""
      && (f.custom ==> c.password == Strip(f.pwd) == Strip(f.conf) && |c.password| >= 4)
      && (!f.custom ==> c.password == DEFAULT_PASSWORD)
  {
    StripIdempotent(f.username);
  }
}
