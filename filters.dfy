/** The search boxes of the catalogue, validation, update and removal pages, and
    the option lists of their select boxes. A frame is a `Table`: its columns and
    its rows in display order. */
module Filters {
  import opened Wrappers
  import opened Text
  import opened Cells
  import opened Store
  import opened Columns

  /** The select-box entry that switches a filter off. */
  const ALL: string := "— Todos —"

  /** `df.get(col, pd.Series("", index=df.index)).astype(str)` at one row. */
  function Cell(t: Table, r: Row, col: string): string {
    if col in t.cols then PyStr(Get(r, col)) else ""
  }

  /** One search box. */
  datatype Criterion =
    | CodeIs(text: string)                  // CODIGO_PRODUTO, both sides stripped, exact
    | Equals(col: string, sel: string)      // a select box's choice
    | ContainsCI(col: string, text: string) // `str.contains(text, case=False, regex=False)`

  /** A criterion filters only when its box is filled in (a non-empty text, a choice other than ALL). */
  predicate Active(c: Criterion) {
    match c
    case CodeIs(x) => x != ""
    case Equals(_, sel) => sel != ALL
    case ContainsCI(_, x) => x != ""
  }

  /** pandas compares upper-cased copies when asked to ignore case. */
  predicate ContainsIgnoreCase(hay: string, needle: string) {
    Contains(Upper(hay), Upper(needle))
  }

  predicate Holds(t: Table, r: Row, c: Criterion) {
    match c
    case CodeIs(x) => Strip(Cell(t, r, "CODIGO_PRODUTO")) == Strip(x)
    case Equals(col, sel) => Cell(t, r, col) == sel
    case ContainsCI(col, x) => ContainsIgnoreCase(Cell(t, r, col), x)
  }

  /** `mask = True; if box: mask &= ...` over the boxes in order. */
  predicate Keep(t: Table, r: Row, cs: seq<Criterion>)
    decreases |cs|
  {
    cs == [] || ((Active(cs[0]) ==> Holds(t, r, cs[0])) && Keep(t, r, cs[1..]))
  }

  /** `df[mask]` */
  function Apply(t: Table, cs: seq<Criterion>): (r: seq<Row>)
    ensures |r| <= |t.rows|
  {
    KeepRows(t, t.rows, cs)
  }

  function KeepRows(t: Table, rows: seq<Row>, cs: seq<Criterion>): (r: seq<Row>)
    ensures |r| <= |rows|
    decreases |rows|
  {
    if rows == [] then []
    else (if Keep(t, rows[0], cs) then [rows[0]] else []) + KeepRows(t, rows[1..], cs)
  }

  /** The mask is the conjunction of the filled-in boxes. */
  lemma {:induction false} KeepIff(t: Table, r: Row, cs: seq<Criterion>)
    ensures Keep(t, r, cs) <==> forall i :: 0 <= i < |cs| && Active(cs[i]) ==> Holds(t, r, cs[i])
    decreases |cs|
  {
    if cs != [] {
      KeepIff(t, r, cs[1..]);
      assert forall i :: 1 <= i < |cs| ==> cs[i] == cs[1..][i - 1];
    }
  }

  /** A row is shown iff it is a row of the frame that every filled-in box accepts;
      the shown rows keep the frame's order. */
  lemma {:induction false} KeepRowsMember(t: Table, rows: seq<Row>, cs: seq<Criterion>, r: Row)
    ensures r in KeepRows(t, rows, cs) <==> r in rows && Keep(t, r, cs)
    decreases |rows|
  {
    if rows != [] {
      KeepRowsMember(t, rows[1..], cs, r);
      assert rows == [rows[0]] + rows[1..];
    }
  }

  lemma {:induction false} KeepRowsAll(t: Table, rows: seq<Row>, cs: seq<Criterion>)
    requires forall r :: r in rows ==> Keep(t, r, cs)
    ensures KeepRows(t, rows, cs) == rows
    decreases |rows|
  {
    if rows != [] {
      KeepRowsAll(t, rows[1..], cs);
      assert rows == [rows[0]] + rows[1..];
    }
  }

  /** With every box empty the whole frame is shown. */
  lemma {:induction false} NoFilterKeepsAll(t: Table, cs: seq<Criterion>)
    requires forall i :: 0 <= i < |cs| ==> !Active(cs[i])
    ensures Apply(t, cs) == t.rows
  {
    forall r | r in t.rows ensures Keep(t, r, cs) {
      KeepIff(t, r, cs);
    }
    KeepRowsAll(t, t.rows, cs);
  }

  // ---------------------------------------------------------------------------
  // The boxes of each page

  /** The catalogue page: code, product type, keywords. */
  function CatalogoCriteria(codigo: string, tipo: string, palavra: string): seq<Criterion> {
    [CodeIs(codigo), Equals("TIPO_PRODUTO", tipo), ContainsCI("PALAVRA_CHAVE", palavra)]
  }

  /** The validation page and the pending-items update page: code, type, input, keywords. */
  function ValidacaoCriteria(codigo: string, tipo: string, insumo: string, palavra: string): seq<Criterion> {
    [CodeIs(codigo), Equals("TIPO_PRODUTO", tipo), Equals("INSUMO", insumo), ContainsCI("PALAVRA_CHAVE", palavra)]
  }

  /** The approved-items update page, whose type box reads TIPO_CODIGO. */
  function AtualizacaoCriteria(codigo: string, tipo: string, insumo: string, palavra: string): seq<Criterion> {
    [CodeIs(codigo), Equals("TIPO_CODIGO", tipo), Equals("INSUMO", insumo), ContainsCI("PALAVRA_CHAVE", palavra)]
  }

  lemma CatalogoKeep(t: Table, r: Row, codigo: string, tipo: string, palavra: string)
    ensures Keep(t, r, CatalogoCriteria(codigo, tipo, palavra)) <==>
      && (codigo != "" ==> Strip(Cell(t, r, "CODIGO_PRODUTO")) == Strip(codigo))
      && (tipo != ALL ==> Cell(t, r, "TIPO_PRODUTO") == tipo)
      && (palavra != "" ==> ContainsIgnoreCase(Cell(t, r, "PALAVRA_CHAVE"), palavra))
  {
    ThreeKeep(t, r, CatalogoCriteria(codigo, tipo, palavra));
  }

  lemma ThreeKeep(t: Table, r: Row, cs: seq<Criterion>)
    requires |cs| == 3
    ensures Keep(t, r, cs) <==>
      (Active(cs[0]) ==> Holds(t, r, cs[0])) && (Active(cs[1]) ==> Holds(t, r, cs[1])) &&
      (Active(cs[2]) ==> Holds(t, r, cs[2]))
  {
    KeepIff(t, r, cs);
  }

  lemma FourKeep(t: Table, r: Row, cs: seq<Criterion>)
    requires |cs| == 4
    ensures Keep(t, r, cs) <==>
      (Active(cs[0]) ==> Holds(t, r, cs[0])) && (Active(cs[1]) ==> Holds(t, r, cs[1])) &&
      (Active(cs[2]) ==> Holds(t, r, cs[2])) && (Active(cs[3]) ==> Holds(t, r, cs[3]))
  {
    KeepIff(t, r, cs);
  }

  lemma ValidacaoKeep(t: Table, r: Row, codigo: string, tipo: string, insumo: string, palavra: string)
    ensures Keep(t, r, ValidacaoCriteria(codigo, tipo, insumo, palavra)) <==>
      && (codigo != "" ==> Strip(Cell(t, r, "CODIGO_PRODUTO")) == Strip(codigo))
      && (tipo != ALL ==> Cell(t, r, "TIPO_PRODUTO") == tipo)
      && (insumo != ALL ==> Cell(t, r, "INSUMO") == insumo)
      && (palavra != "" ==> ContainsIgnoreCase(Cell(t, r, "PALAVRA_CHAVE"), palavra))
  {
    FourKeep(t, r, ValidacaoCriteria(codigo, tipo, insumo, palavra));
  }

  lemma AtualizacaoKeep(t: Table, r: Row, codigo: string, tipo: string, insumo: string, palavra: string)
    ensures Keep(t, r, AtualizacaoCriteria(codigo, tipo, insumo, palavra)) <==>
      && (codigo != "" ==> Strip(Cell(t, r, "CODIGO_PRODUTO")) == Strip(codigo))
      && (tipo != ALL ==> Cell(t, r, "TIPO_CODIGO") == tipo)
      && (insumo != ALL ==> Cell(t, r, "INSUMO") == insumo)
      && (palavra != "" ==> ContainsIgnoreCase(Cell(t, r, "PALAVRA_CHAVE"), palavra))
  {
    FourKeep(t, r, AtualizacaoCriteria(codigo, tipo, insumo, palavra));
  }

  /** A code box holding only blanks is filled in, and then keeps only rows with a blank code. */
  lemma BlankCodeBox(t: Table, r: Row)
    ensures Active(CodeIs(" ")) && (Holds(t, r, CodeIs(" ")) <==> Strip(Cell(t, r, "CODIGO_PRODUTO")) == "")
  {
    assert TrimLeft(" ") == "";
  }

  // ---------------------------------------------------------------------------
  // Select-box options

  predicate AnyPyEq(v: Value, vs: seq<Value>)
    decreases |vs|
  {
    vs != [] && (PyEq(v, vs[0]) || AnyPyEq(v, vs[1..]))
  }

  lemma {:induction false} AnyPyEqIff(v: Value, vs: seq<Value>)
    ensures AnyPyEq(v, vs) <==> exists k :: 0 <= k < |vs| && PyEq(v, vs[k])
    decreases |vs|
  {
    if vs != [] {
      AnyPyEqIff(v, vs[1..]);
      if exists k :: 0 <= k < |vs[1..]| && PyEq(v, vs[1..][k]) {
        var k :| 0 <= k < |vs[1..]| && PyEq(v, vs[1..][k]);
        assert vs[k + 1] == vs[1..][k];
      }
      if exists k :: 0 <= k < |vs| && PyEq(v, vs[k]) {
        var k :| 0 <= k < |vs| && PyEq(v, vs[k]);
        if k > 0 { assert vs[1..][k - 1] == vs[k]; }
      }
    }
  }

  /** `series.dropna().unique()`: the non-missing cells, each kept at its first
      occurrence, later equal ones dropped. */
  function Unique(vs: seq<Value>): (u: seq<Value>)
    decreases |vs|
  {
    if vs == [] then []
    else
      var u := Unique(vs[..|vs| - 1]);
      var v := vs[|vs| - 1];
      if IsNa(v) || AnyPyEq(v, u) then u else u + [v]
  }

  /** The unique cells are non-missing cells of the column, pairwise unequal, and every
      non-missing cell equals one of them. */
  lemma {:induction false} UniqueSpec(vs: seq<Value>)
    ensures forall x :: x in Unique(vs) ==> x in vs && !IsNa(x)
    ensures forall i, j :: 0 <= i < j < |Unique(vs)| ==> !PyEq(Unique(vs)[i], Unique(vs)[j])
    ensures forall x :: x in vs && !IsNa(x) ==> AnyPyEq(x, Unique(vs))
    decreases |vs|
  {
    if vs != [] {
      var init := vs[..|vs| - 1];
      var u := Unique(init);
      var v := vs[|vs| - 1];
      UniqueSpec(init);
      assert vs == init + [v];
      AnyPyEqIff(v, u);
      forall x | x in vs && !IsNa(x) ensures AnyPyEq(x, Unique(vs)) {
        AnyPyEqIff(x, Unique(vs));
        if x in init {
          AnyPyEqIff(x, u);
          var k :| 0 <= k < |u| && PyEq(x, u[k]);
          assert Unique(vs)[k] == u[k];
        } else {
          assert x == v;
          if AnyPyEq(v, u) {
            var k :| 0 <= k < |u| && PyEq(x, u[k]);
            assert Unique(vs)[k] == u[k];
          } else {
            assert Unique(vs)[|u|] == v;
            assert PyEq(v, v);
          }
        }
      }
      if !(IsNa(v) || AnyPyEq(v, u)) {
        forall i, j | 0 <= i < j < |Unique(vs)| ensures !PyEq(Unique(vs)[i], Unique(vs)[j]) {
          if j == |u| {
            PyEqSymmetric(u[i], v);
          }
        }
      }
    }
  }

  function Strs(vs: seq<Value>): (r: seq<string>)
    ensures |r| == |vs| && forall i :: 0 <= i < |vs| ==> r[i] == PyStr(vs[i])
  {
    seq(|vs|, i requires 0 <= i < |vs| => PyStr(vs[i]))
  }

  /** `unique_opts(series)` */
  function UniqueOpts(vs: seq<Value>): seq<string> {
    [ALL] + SortStrings(Strs(Unique(vs)))
  }

  /** The sentinel comes first, then the text of each distinct non-missing cell, once,
      in ascending code-point order. */
  lemma UniqueOptsSorted(vs: seq<Value>)
    ensures UniqueOpts(vs)[0] == ALL
    ensures SortedStrings(UniqueOpts(vs)[1..])
    ensures multiset(UniqueOpts(vs)[1..]) == multiset(Strs(Unique(vs)))
  {
    assert UniqueOpts(vs)[1..] == SortStrings(Strs(Unique(vs)));
  }

  /** Every option after the sentinel is the text of a non-missing cell of the column. */
  lemma OptionsFromCells(vs: seq<Value>, s: string)
    requires s in UniqueOpts(vs)[1..]
    ensures exists k :: 0 <= k < |vs| && !IsNa(vs[k]) && PyStr(vs[k]) == s
  {
    var u := Unique(vs);
    UniqueOptsSorted(vs);
    UniqueSpec(vs);
    assert s in multiset(Strs(u));
    var i :| 0 <= i < |u| && Strs(u)[i] == s;
    assert u[i] in vs;
    var k :| 0 <= k < |vs| && vs[k] == u[i];
  }

  /** Every text cell of the column is an option. */
  lemma CellsAreOptions(vs: seq<Value>, k: nat)
    requires k < |vs| && vs[k].VStr?
    ensures vs[k].s in UniqueOpts(vs)[1..]
  {
    var u := Unique(vs);
    UniqueOptsSorted(vs);
    UniqueSpec(vs);
    assert vs[k] in vs;
    AnyPyEqIff(vs[k], u);
    var i :| 0 <= i < |u| && PyEq(vs[k], u[i]);
    assert PyStr(u[i]) == vs[k].s;
    assert Strs(u)[i] in multiset(UniqueOpts(vs)[1..]);
  }

  // ---------------------------------------------------------------------------
  // The validation history's validator box

  /** `"(" in e and e.endswith(")")` then `e.split("(")[-1][:-1]`, else `e`. */
  function ValidatorUsername(entry: string): string {
    if '(' in entry && |entry| > 0 && entry[|entry| - 1] == ')' then
      var last := AfterLastOpen(entry);
      last[..|last| - 1]
    else entry
  }

  /** `s.split("(")[-1]`: what follows the last `(`, or all of `s` without one. */
  function AfterLastOpen(s: string): (r: string)
    ensures |r| <= |s|
    decreases |s|
  {
    if s == [] || s[|s| - 1] == '(' then []
    else AfterLastOpen(s[..|s| - 1]) + [s[|s| - 1]]
  }

  lemma {:induction false} AfterLastOpenOf(a: string, x: string)
    requires '(' !in x
    ensures AfterLastOpen(a + "(" + x) == x
    decreases |x|
  {
    var s := a + "(" + x;
    if x != [] {
      var init := x[..|x| - 1];
      assert s[..|s| - 1] == a + "(" + init;
      assert s[|s| - 1] == x[|x| - 1];
      AfterLastOpenOf(a, init);
      assert init + [x[|x| - 1]] == x;
    }
  }

  /** `"Nome (user)"` gives `"user"`: whatever lies between the last `(` and the closing `)`. */
  lemma ValidatorUsernameOfEntry(name: string, user: string)
    requires '(' !in user
    ensures ValidatorUsername(name + "(" + user + ")") == user
  {
    var e := name + "(" + user + ")";
    assert e[|name|] == '(';
    assert e == name + "(" + (user + ")");
    AfterLastOpenOf(name, user + ")");
  }

  /** An entry in any other form is the username itself. */
  lemma ValidatorUsernamePlain(entry: string)
    requires '(' !in entry || entry == [] || entry[|entry| - 1] != ')'
    ensures ValidatorUsername(entry) == entry
  {
  }

  // ---------------------------------------------------------------------------
  // The removal page's search: three boxes applied in Snowflake

  /** SQL `LIKE`: in the pattern `p`, `%` matches any run of characters and `_` any
      single character; every other character matches itself. */
  predicate LikeMatch(s: string, p: string)
    decreases |s| + |p|
  {
    if p == [] then s == []
    else if p[0] == '%' then LikeMatch(s, p[1..]) || (s != [] && LikeMatch(s[1..], p))
    else s != [] && (p[0] == '_' || p[0] == s[0]) && LikeMatch(s[1..], p[1..])
  }

  predicate NoWildcard(x: string) {
    forall i :: 0 <= i < |x| ==> x[i] != '%' && x[i] != '_'
  }

  /** `col ILIKE '%x%'`: NULL matches nothing, letter case is ignored, and `%` or `_`
      typed into the box act as wildcards. */
  predicate ILikeContains(v: Value, x: string) {
    !IsNa(v) && LikeMatch(Upper(PyStr(v)), "%" + Upper(x) + "%")
  }

  lemma {:induction false} LikeAny(s: string)
    ensures LikeMatch(s, "%")
    decreases |s|
  {
    if s != [] {
      LikeAny(s[1..]);
    }
  }

  /** A pattern without wildcards followed by `%` matches exactly the texts it begins. */
  lemma {:induction false} LikePrefix(s: string, q: string)
    requires NoWildcard(q)
    ensures LikeMatch(s, q + "%") <==> q <= s
    decreases |q|
  {
    if q == [] {
      assert q + "%" == "%";
      LikeAny(s);
    } else {
      var p := q + "%";
      assert p[0] == q[0] && p[1..] == q[1..] + "%";
      assert NoWildcard(q[1..]) by {
        assert forall i :: 0 <= i < |q[1..]| ==> q[1..][i] == q[i + 1];
      }
      if s != [] {
        LikePrefix(s[1..], q[1..]);
        assert q <= s <==> q[0] == s[0] && q[1..] <= s[1..];
      }
    }
  }

  /** `%q%` with no wildcards in `q` is plain containment. */
  lemma {:induction false} LikeInfix(s: string, q: string)
    requires NoWildcard(q)
    ensures LikeMatch(s, "%" + q + "%") <==> Contains(s, q)
    decreases |s|
  {
    var p := "%" + q + "%";
    assert p[0] == '%' && p[1..] == q + "%";
    LikePrefix(s, q);
    if s != [] {
      LikeInfix(s[1..], q);
    }
  }

  /** When the box holds no wildcard, the search is the case-blind containment test. */
  lemma ILikePlainText(v: Value, x: string)
    requires NoWildcard(x)
    ensures ILikeContains(v, x) <==> !IsNa(v) && ContainsIgnoreCase(PyStr(v), x)
  {
    assert NoWildcard(Upper(x));
    LikeInfix(Upper(PyStr(v)), Upper(x));
  }

  /** An `_` in the box matches any character, so the search finds more than containment would. */
  lemma ILikeUnderscore()
    ensures ILikeContains(VStr("AB"), "A_")
    ensures !ContainsIgnoreCase("AB", "A_")
  {
    assert Upper("AB") == "AB" && Upper("A_") == "A_";
    var p := "%" + "A_" + "%";
    assert p[1..] == "A_%";
    assert "A_%"[1..] == "_%" && "_%"[1..] == "%" && "AB"[1..] == "B" && "B"[1..] == [];
    assert LikeMatch([], "%");
    assert LikeMatch("B", "_%");
    assert LikeMatch("AB", "A_%");
    assert !Contains("B"[1..], "A_");
    assert !Contains("B", "A_");
  }

  /** `ID == int(x)` when `x` is an integer, else `CAST(ID AS STRING) == x`. */
  predicate IdMatches(v: Value, x: string) {
    match ParseInt(x)
    case Some(n) => SqlEq(v, VInt(n))
    case None => !IsNa(v) && PyStr(v) == x
  }

  /** The row filter of `load_df(f_insumo, f_id, f_ean)` over a table with columns `cols`:
      each box applies only when it is not blank and the table has its column. */
  predicate RemovalSearch(cols: seq<string>, r: Row, insumo: string, id: string, ean: string) {
    && (Strip(insumo) != "" && "INSUMO" in cols ==> ILikeContains(Get(r, "INSUMO"), Strip(insumo)))
    && (Strip(ean) != "" && "CODIGO_PRODUTO" in cols ==> ILikeContains(Get(r, "CODIGO_PRODUTO"), Strip(ean)))
    && (Strip(id) != "" && "ID" in cols ==> IdMatches(Get(r, "ID"), Strip(id)))
  }

  const REMOVAL_SHOW: seq<string> := ["ID", "CODIGO_PRODUTO", "INSUMO", "CATEGORIA", "FAMILIA", "MARCA"]

  /** `load_df`: the matching rows (in table order) and the columns shown; a table
      with none of the expected columns is an error. */
  function RemovalLoad(t: Table, insumo: string, id: string, ean: string): (r: Result<(seq<string>, seq<Row>)>)
  {
    var show := Present(REMOVAL_SHOW, t.cols);
    if show == [] then Err("no expected columns")
    else Ok((show, SearchRows(t.cols, t.rows, insumo, id, ean)))
  }

  function SearchRows(cols: seq<string>, rows: seq<Row>, insumo: string, id: string, ean: string): (r: seq<Row>)
    ensures |r| <= |rows|
    decreases |rows|
  {
    if rows == [] then []
    else
      (if RemovalSearch(cols, rows[0], insumo, id, ean) then [rows[0]] else []) +
      SearchRows(cols, rows[1..], insumo, id, ean)
  }

  /** The loaded rows are exactly the table rows the boxes accept, and blank boxes accept all. */
  lemma {:induction false} RemovalLoadSpec(t: Table, insumo: string, id: string, ean: string, r: Row)
    requires RemovalLoad(t, insumo, id, ean).Ok?
    ensures r in RemovalLoad(t, insumo, id, ean).value.1 <==> r in t.rows && RemovalSearch(t.cols, r, insumo, id, ean)
    ensures Strip(insumo) == "" && Strip(id) == "" && Strip(ean) == "" ==>
      RemovalLoad(t, insumo, id, ean).value.1 == t.rows
  {
    SearchMember(t.cols, t.rows, insumo, id, ean, r);
    if Strip(insumo) == "" && Strip(id) == "" && Strip(ean) == "" {
      SearchAll(t.cols, t.rows, insumo, id, ean);
    }
  }

  lemma {:induction false} SearchMember(cols: seq<string>, rows: seq<Row>, insumo: string, id: string, ean: string, r: Row)
    ensures r in SearchRows(cols, rows, insumo, id, ean) <==> r in rows && RemovalSearch(cols, r, insumo, id, ean)
    decreases |rows|
  {
    if rows != [] {
      SearchMember(cols, rows[1..], insumo, id, ean, r);
      assert rows == [rows[0]] + rows[1..];
    }
  }

  lemma {:induction false} SearchAll(cols: seq<string>, rows: seq<Row>, insumo: string, id: string, ean: string)
    requires Strip(insumo) == "" && Strip(id) == "" && Strip(ean) == ""
    ensures SearchRows(cols, rows, insumo, id, ean) == rows
    decreases |rows|
  {
    if rows != [] {
      SearchAll(cols, rows[1..], insumo, id, ean);
      assert rows == [rows[0]] + rows[1..];
    }
  }
}
