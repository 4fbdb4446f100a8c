/** The SQL literal writers the pages paste into statements (`sql_str`,
    `_sql_escape`, `_esc`) and two readers of the text they produce: one that
    knows only quote doubling, as standard SQL does, and one that also applies
    the backslash escapes Snowflake recognises inside single-quoted strings. */
module SqlText {
  import opened Wrappers
  import opened Text
  import opened Cells

  /** `s.replace("'", "''")` */
  function DoubleQuotes(s: string): (r: string)
    ensures |r| >= |s|
  {
    if s == [] then []
    else (if s[0] == '\'' then "''" else [s[0]]) + DoubleQuotes(s[1..])
  }

  /** Reads the inside of a quoted literal in which every quote is doubled;
      `None` when a quote stands alone (the literal would have ended there). */
  function Undouble(t: string): Option<string>
  {
    if t == [] then Some([])
    else if t[0] == '\'' then
      if |t| >= 2 && t[1] == '\'' then
        match Undouble(t[2..])
        case Some(r) => Some("'" + r)
        case None => None
      else None
    else
      match Undouble(t[1..])
      case Some(r) => Some([t[0]] + r)
      case None => None
  }

  lemma {:induction false} UndoubleDouble(s: string)
    ensures Undouble(DoubleQuotes(s)) == Some(s)
  {
    if s != [] {
      var rest := DoubleQuotes(s[1..]);
      var t := DoubleQuotes(s);
      UndoubleDouble(s[1..]);
      if s[0] == '\'' {
        assert t == "''" + rest;
        assert t[2..] == rest;
        assert Undouble(t) == Some("'" + s[1..]);
      } else {
        assert t == [s[0]] + rest;
        assert t[1..] == rest;
        assert Undouble(t) == Some([s[0]] + s[1..]);
      }
      assert s == [s[0]] + s[1..];
    }
  }

  /** The other direction: a body that reads back is exactly the doubled text,
      so distinct strings never share a quoted literal. */
  lemma {:induction false} DoubleUndouble(t: string)
    ensures Undouble(t).Some? ==> DoubleQuotes(Undouble(t).value) == t
  {
    if t != [] && Undouble(t).Some? {
      if t[0] == '\'' {
        DoubleUndouble(t[2..]);
        var r := Undouble(t[2..]).value;
        assert Undouble(t).value == "'" + r;
        assert ("'" + r)[1..] == r;
        assert t == "''" + t[2..];
      } else {
        DoubleUndouble(t[1..]);
        var r := Undouble(t[1..]).value;
        assert ([t[0]] + r)[1..] == r;
        assert t == [t[0]] + t[1..];
      }
    }
  }

  function Quote(body: string): string {
    "'" + body + "'"
  }

  /** `sql_str(v)` */
  function SqlStr(v: Value): (r: string)
    ensures IsNa(v) ==> r == "NULL"
    ensures !IsNa(v) ==> r == Quote(DoubleQuotes(PyStr(v)))
  {
    if IsNa(v) then "NULL" else Quote(DoubleQuotes(PyStr(v)))
  }

  /** `_sql_escape(v)`: numbers are written unquoted. */
  function SqlEscape(v: Value): (r: string)
    ensures IsNa(v) ==> r == "NULL"
    ensures !IsNa(v) && IsNumber(v) ==> r == PyStr(v)
    ensures !IsNa(v) && !IsNumber(v) ==> r == SqlStr(v)
  {
    if IsNa(v) then "NULL"
    else if IsNumber(v) then PyStr(v)
    else Quote(DoubleQuotes(PyStr(v)))
  }

  /** `_esc(s)` of pages/7_Exclusao.py and pages/8_Usuarios.py: `(s or "").replace("'", "''")`.
      A truthy cell that is not a string has no `replace`, so Python raises. */
  function Esc(v: Value): (r: Option<string>)
    ensures r.None? <==> Truthy(v) && !v.VStr?
    ensures r.Some? ==> Undouble(r.value) == Some(if Truthy(v) then v.s else "")
  {
    if !Truthy(v) then
      UndoubleDouble("");
      Some("")
    else if v.VStr? then
      UndoubleDouble(v.s);
      Some(DoubleQuotes(v.s))
    else None
  }

  predicate IsQuoted(t: string) {
    |t| >= 2 && t[0] == '\'' && t[|t| - 1] == '\''
  }

  /** A standard SQL reader of the literals above. */
  function ReadStd(t: string): Option<Value> {
    if t == "NULL" then Some(VNull)
    else if IsQuoted(t) then
      match Undouble(t[1..|t| - 1])
      case Some(s) => Some(VStr(s))
      case None => None
    else ReadBare(t)
  }

  /** An unquoted literal: a boolean, a decimal or an integer. */
  function ReadBare(t: string): Option<Value> {
    if t == "True" then Some(VBool(true))
    else if t == "False" then Some(VBool(false))
    else if DecimalRepr(t) then Some(VFloat(t))
    else if t != [] && (IsDigit(t[0]) || t[0] == '-') && NoSpace(t) && ParseInt(t).Some? then
      Some(VInt(ParseInt(t).value))
    else None
  }

  /** What a statement stores for `sql_str(v)`: NULL, or the text `str(v)`. */
  function SqlStrValue(v: Value): (r: Value)
    ensures r == VNull <==> IsNa(v)
  {
    if IsNa(v) then VNull else VStr(PyStr(v))
  }

  /** What a statement stores for `_sql_escape(v)`; `None` for a float repr SQL
      cannot read (`inf`), where the statement fails. */
  function SqlEscapeValue(v: Value): Option<Value> {
    if IsNa(v) then Some(VNull)
    else if v.VFloat? then (if DecimalRepr(v.repr) then Some(v) else None)
    else if IsNumber(v) then Some(v)
    else Some(VStr(PyStr(v)))
  }

  lemma ReadQuoted(s: string)
    ensures ReadStd(Quote(DoubleQuotes(s))) == Some(VStr(s))
  {
    var t := Quote(DoubleQuotes(s));
    assert t[1..|t| - 1] == DoubleQuotes(s);
    UndoubleDouble(s);
    assert t[0] == '\'';
  }

  /** `sql_str` writes a literal whose value is `None` as NULL and anything else as `str(v)`:
      the quotes inside are doubled, and un-doubling gives the text back. */
  lemma SqlStrRoundTrip(v: Value)
    ensures ReadStd(SqlStr(v)) == Some(SqlStrValue(v))
  {
    if !IsNa(v) {
      ReadQuoted(PyStr(v));
    }
  }

  lemma IntTextNotDecimal(i: int)
    ensures !DecimalRepr(IntToString(i))
    ensures NoSpace(IntToString(i))
  {
    var t := IntToString(i);
    assert DotIndex(t) == |t|;
  }

  lemma ReadBareInt(t: string, i: int)
    requires t != [] && (IsDigit(t[0]) || t[0] == '-') && NoSpace(t)
    requires !DecimalRepr(t) && ParseInt(t) == Some(i)
    ensures ReadStd(t) == Some(VInt(i))
  {
    assert t != "NULL" && t != "True" && t != "False" && !IsQuoted(t);
  }

  lemma ReadIntText(i: int)
    ensures ReadStd(IntToString(i)) == Some(VInt(i))
  {
    var t := IntToString(i);
    assert t != [] && (IsDigit(t[0]) || t[0] == '-');
    assert !DecimalRepr(t) && NoSpace(t) by { IntTextNotDecimal(i); }
    assert ParseInt(t) == Some(i) by { ParseIntToString(i); }
    ReadBareInt(t, i);
  }

  lemma DecimalFirstChar(r: string)
    requires DecimalRepr(r)
    ensures r[0] == '.' || r[0] == '-' || IsDigit(r[0])
  {
    var k := DotIndex(r);
    if k > 0 && r[0] != '-' {
      assert r[..k][0] == r[0];
    }
  }

  lemma ReadDecimalText(r: string)
    requires DecimalRepr(r)
    ensures ReadStd(r) == Some(VFloat(r))
  {
    DecimalFirstChar(r);
    assert r != "NULL" && r != "True" && r != "False" && !IsQuoted(r);
  }

  /** A decimal repr reads back as that float; the non-finite reprs do not read at all. */
  lemma ReadFloatText(r: string)
    requires DecimalRepr(r) || r in {"inf", "-inf", "nan"}
    ensures ReadStd(r) == if DecimalRepr(r) then Some(VFloat(r)) else None
  {
    if DecimalRepr(r) {
      ReadDecimalText(r);
    } else if r == "-inf" {
      ReadMinusInf();
    } else {
      assert DotIndex(r) == |r|;
      assert r != "NULL" && r != "True" && r != "False" && !IsQuoted(r);
      assert !IsDigit(r[0]) && r[0] != '-';
    }
  }

  lemma ReadMinusInf()
    ensures ReadStd("-inf") == None
  {
    var r := "-inf";
    assert DotIndex(r) == |r|;
    assert r != "NULL" && r != "True" && r != "False" && !IsQuoted(r);
    StripNoEnds(r);
    assert !AllDigits(r) && !AllDigits(r[1..]);
  }

  /** `_sql_escape` writes numbers unquoted and text quoted, and each reads back as
      the value the statement stores. */
  lemma SqlEscapeRoundTrip(v: Value)
    requires v.VFloat? ==> DecimalRepr(v.repr) || v.repr in {"inf", "-inf", "nan"}
    ensures ReadStd(SqlEscape(v)) == SqlEscapeValue(v)
  {
    if IsNa(v) {
    } else if v.VInt? {
      ReadIntText(v.i);
    } else if v.VFloat? {
      ReadFloatText(v.repr);
    } else if v.VBool? {
    } else {
      ReadQuoted(PyStr(v));
    }
  }

  // ---------------------------------------------------------------------------
  // Snowflake reads `\` inside a single-quoted literal as the start of an escape.

  /** The character Snowflake stores for the escape `\c`. */
  function SfEscape(c: char): char {
    if c == 'n' then '\n'
    else if c == 't' then '\t'
    else if c == 'r' then '\r'
    else if c == 'b' then '\U{8}'
    else if c == 'f' then '\U{C}'
    else if c == '0' then '\0'
    else c
  }

  /** Reads what follows the opening quote of a Snowflake string literal, up to
      the closing quote, which must be the last character. */
  function SfBody(t: string): Option<string> {
    if t == [] then None
    else if t[0] == '\'' then
      if |t| == 1 then Some([])
      else if t[1] == '\'' then
        match SfBody(t[2..])
        case Some(r) => Some("'" + r)
        case None => None
      else None
    else if t[0] == '\\' then
      if |t| == 1 then None
      else
        match SfBody(t[2..])
        case Some(r) => Some([SfEscape(t[1])] + r)
        case None => None
    else
      match SfBody(t[1..])
      case Some(r) => Some([t[0]] + r)
      case None => None
  }

  function ReadSnowflake(t: string): Option<Value> {
    if t == "NULL" then Some(VNull)
    else if t != [] && t[0] == '\'' then
      match SfBody(t[1..])
      case Some(s) => Some(VStr(s))
      case None => None
    else ReadStd(t)
  }

  predicate NoBackslash(s: string) {
    forall i :: 0 <= i < |s| ==> s[i] != '\\'
  }

  lemma SfBodyQuoteStep(rest: string, r: string)
    requires SfBody(rest) == Some(r)
    ensures SfBody("''" + rest) == Some("'" + r)
  {
    assert ("''" + rest)[2..] == rest;
  }

  lemma SfBodyBackslashStep(rest: string, r: string)
    requires SfBody(rest) == Some(r)
    ensures SfBody("\\\\" + rest) == Some("\\" + r)
  {
    assert ("\\\\" + rest)[2..] == rest;
  }

  lemma SfBodyPlainStep(c: char, rest: string, r: string)
    requires c != '\'' && c != '\\' && SfBody(rest) == Some(r)
    ensures SfBody([c] + rest) == Some([c] + r)
  {
    assert ([c] + rest)[1..] == rest;
  }

  lemma {:induction false} SfBodyDoubled(s: string)
    requires NoBackslash(s)
    ensures SfBody(DoubleQuotes(s) + "'") == Some(s)
  {
    if s != [] {
      var rest := DoubleQuotes(s[1..]) + "'";
      assert NoBackslash(s[1..]) by {
        assert forall i :: 0 <= i < |s[1..]| ==> s[1..][i] == s[i + 1];
      }
      SfBodyDoubled(s[1..]);
      if s[0] == '\'' {
        assert DoubleQuotes(s) + "'" == "''" + rest;
        SfBodyQuoteStep(rest, s[1..]);
      } else {
        assert s[0] != '\\';
        assert DoubleQuotes(s) + "'" == [s[0]] + rest;
        SfBodyPlainStep(s[0], rest, s[1..]);
      }
      assert s == [s[0]] + s[1..];
    }
  }

  /** Without a backslash the written text reads back the same under Snowflake's rules. */
  lemma SqlStrSnowflakeNoBackslash(v: Value)
    requires NoBackslash(PyStr(v))
    ensures ReadSnowflake(SqlStr(v)) == Some(SqlStrValue(v))
  {
    if !IsNa(v) {
      SfBodyDoubled(PyStr(v));
      ReadSnowflakeQuoted(DoubleQuotes(PyStr(v)), PyStr(v));
    }
  }

  /** `_sql_escape` under Snowflake's rules: numbers are bare and read as in standard
      SQL, and text without a backslash reads back as the value the statement stores. */
  lemma SqlEscapeSnowflakeNoBackslash(v: Value)
    requires v.VFloat? ==> DecimalRepr(v.repr) || v.repr in {"inf", "-inf", "nan"}
    requires NoBackslash(PyStr(v))
    ensures ReadSnowflake(SqlEscape(v)) == SqlEscapeValue(v)
  {
    SqlEscapeRoundTrip(v);
    if IsNa(v) {
    } else if v.VInt? {
      assert SqlEscape(v)[0] != '\'';
    } else if v.VFloat? {
      if DecimalRepr(v.repr) {
        DecimalFirstChar(v.repr);
      }
      assert SqlEscape(v)[0] != '\'';
    } else if v.VBool? {
    } else {
      SqlStrSnowflakeNoBackslash(v);
    }
  }

  /** The quoted `_esc(v)` literal under Snowflake's rules, for text without a backslash. */
  lemma EscSnowflakeNoBackslash(v: Value)
    requires v.VStr? ==> NoBackslash(v.s)
    ensures Esc(v).Some? ==> ReadSnowflake(Quote(Esc(v).value)) == Some(VStr(if Truthy(v) then v.s else ""))
  {
    if Esc(v).Some? {
      var s := if Truthy(v) then v.s else "";
      assert NoBackslash(s);
      SfBodyDoubled(s);
      ReadSnowflakeQuoted(DoubleQuotes(s), s);
    }
  }

  /** As written, a value ending in a backslash turns the closing quote into an
      escaped quote, so the literal never ends and the statement fails. */
  lemma SqlStrTrailingBackslash()
    ensures SqlStrValue(VStr("a\\")) == VStr("a\\")
    ensures ReadSnowflake(SqlStr(VStr("a\\"))) == None
  {
    var t := SqlStr(VStr("a\\"));
    assert t == "'a\\'";
    assert t[1..] == "a\\'";
    assert t[1..][1..] == "\\'";
    assert t[1..][1..][2..] == [];
  }

  /** Quote doubling plus backslash doubling: the escape Snowflake needs. */
  function SfQuote(s: string): (r: string)
    ensures |r| >= |s|
  {
    if s == [] then []
    else (if s[0] == '\'' then "''" else if s[0] == '\\' then "\\\\" else [s[0]]) + SfQuote(s[1..])
  }

  /** `sql_str` with backslashes escaped as well. */
  function SqlStrSafe(v: Value): (r: string)
    ensures IsNa(v) ==> r == "NULL"
  {
    if IsNa(v) then "NULL" else Quote(SfQuote(PyStr(v)))
  }

  /** On text without a backslash the corrected writer writes what `sql_str` writes. */
  lemma SqlStrSafeAgrees(v: Value)
    requires NoBackslash(PyStr(v))
    ensures SqlStrSafe(v) == SqlStr(v)
  {
    SfQuoteNoBackslash(PyStr(v));
  }

  lemma {:induction false} SfQuoteNoBackslash(s: string)
    requires NoBackslash(s)
    ensures SfQuote(s) == DoubleQuotes(s)
  {
    if s != [] {
      assert NoBackslash(s[1..]) by {
        assert forall i :: 0 <= i < |s[1..]| ==> s[1..][i] == s[i + 1];
      }
      SfQuoteNoBackslash(s[1..]);
    }
  }

  lemma {:induction false} SfBodyQuoted(s: string)
    ensures SfBody(SfQuote(s) + "'") == Some(s)
  {
    if s != [] {
      var rest := SfQuote(s[1..]) + "'";
      SfBodyQuoted(s[1..]);
      if s[0] == '\'' {
        assert SfQuote(s) + "'" == "''" + rest;
        SfBodyQuoteStep(rest, s[1..]);
      } else if s[0] == '\\' {
        assert SfQuote(s) + "'" == "\\\\" + rest;
        SfBodyBackslashStep(rest, s[1..]);
      } else {
        assert SfQuote(s) + "'" == [s[0]] + rest;
        SfBodyPlainStep(s[0], rest, s[1..]);
      }
      assert s == [s[0]] + s[1..];
    }
  }

  /** The corrected writer stores `str(v)` exactly, whatever characters it holds. */
  lemma SqlStrSafeRoundTrip(v: Value)
    ensures ReadSnowflake(SqlStrSafe(v)) == Some(SqlStrValue(v))
  {
    if !IsNa(v) {
      SfBodyQuoted(PyStr(v));
      ReadSnowflakeQuoted(SfQuote(PyStr(v)), PyStr(v));
    }
  }

  lemma ReadSnowflakeQuoted(body: string, s: string)
    requires SfBody(body + "'") == Some(s)
    ensures ReadSnowflake(Quote(body)) == Some(VStr(s))
  {
    var t := Quote(body);
    assert t[0] == '\'' && t[1..] == body + "'";
  }
}
