/** The registration page: a manual form that inserts one item after the required-field
    check and a code lookup, and a spreadsheet upload whose rows are checked for blank
    required cells, unreadable numbers and duplicate codes, explained in an
    `EXPLICAÇÃO` column, split into valid and error rows, and inserted valid row by
    valid row. */
module Cadastro {
  import opened Wrappers
  import opened Text
  import opened Cells
  import opened Utils

  // ---------------------------------------------------------------------------
  // The uploaded sheet

  /** A sheet row read with `dtype=str` and `fillna("")`: column name to text. */
  type Line = map<string, string>

  /** A cell of the sheet after the template columns are added: a missing column reads `""`. */
  function Cell(line: Line, c: string): string {
    if c in line then line[c] else ""
  }

  /** The cell as the checks see it: `CODIGO_PRODUTO` is stripped first. */
  function Field(line: Line, c: string): string {
    if c == "CODIGO_PRODUTO" then Strip(Cell(line, c)) else Cell(line, c)
  }

  function Code(line: Line): string {
    Field(line, "CODIGO_PRODUTO")
  }

  function Codes(sheet: seq<Line>): (cs: seq<string>)
    ensures |cs| == |sheet| && forall i :: 0 <= i < |sheet| ==> cs[i] == Code(sheet[i])
  {
    seq(|sheet|, i requires 0 <= i < |sheet| => Code(sheet[i]))
  }

  /** Every field but REFERENCIA and INSUMO, in the order of both the form and the upload. */
  const REQUIRED: seq<string> := [
    "GRUPO", "CATEGORIA", "SEGMENTO", "FAMILIA", "SUBFAMILIA",
    "TIPO_CODIGO", "CODIGO_PRODUTO", "ITEM", "ESPECIFICACAO",
    "MARCA", "EMB_PRODUTO", "UN_MED", "QTD_MED", "EMB_COMERCIAL", "QTD_EMB_COMERCIAL", "QTD_EMB_PRODUTO"]

  // ---------------------------------------------------------------------------
  // The per-row checks

  /** What the row checks need: the required columns and the two number parsers
      (`to_float_ok` and `to_int_ok` returning a number). */
  datatype Checks = Checks(required: seq<string>, floatOk: string -> bool, intOk: string -> bool, msg: Messages)

  /** The texts the checks write into `EXPLICAÇÃO`. */
  datatype Messages = Messages(
    medInvalid: string, comercialInvalid: string, produtoInvalid: string,
    fileDup: string, inAprovados: string, inPendentes: string)

  const MESSAGES: Messages := Messages(
    "QTD_MED (inválido)", "QTD_EMB_COMERCIAL (inválido)", "QTD_EMB_PRODUTO (inválido)",
    "CODIGO_PRODUTO duplicado no arquivo", "CODIGO_PRODUTO já existe em APROVADOS",
    "CODIGO_PRODUTO já existe em PENDENTES")

  /** The page's checks use `REQUIRED` and the page's texts. */
  predicate PageChecks(chk: Checks) {
    chk.required == REQUIRED && chk.msg == MESSAGES
  }

  /** `[c for c in REQUIRED if str(row[c]).strip() == ""]` */
  function BlankRequired(line: Line, cols: seq<string>): (r: seq<string>)
    ensures forall k :: 0 <= k < |r| ==> r[k] in cols
    ensures forall c :: c in cols ==> (c in r <==> Strip(Field(line, c)) == "")
    decreases |cols|
  {
    if cols == [] then []
    else (if Strip(Field(line, cols[0])) == "" then [cols[0]] else []) + BlankRequired(line, cols[1..])
  }

  /** A non-blank cell that the parser refuses. `parses` stands for `to_float_ok` or
      `to_int_ok` returning a number. */
  predicate Unreadable(line: Line, c: string, parses: string -> bool) {
    Strip(Field(line, c)) != "" && !parses(Field(line, c))
  }

  /** The marker of one quantity cell, when it is unreadable. */
  function Marker(line: Line, c: string, parses: string -> bool, marker: string): seq<string> {
    if Unreadable(line, c, parses) then [marker] else []
  }

  /** The markers of the three quantity cells, in that order. */
  function InvalidMarkers(line: Line, chk: Checks): seq<string> {
    Marker(line, "QTD_MED", chk.floatOk, chk.msg.medInvalid)
    + Marker(line, "QTD_EMB_COMERCIAL", chk.intOk, chk.msg.comercialInvalid)
    + Marker(line, "QTD_EMB_PRODUTO", chk.intOk, chk.msg.produtoInvalid)
  }

  /** `miss` of one row: the blank required columns, then the unreadable quantities. */
  function Missing(line: Line, chk: Checks): seq<string> {
    BlankRequired(line, chk.required) + InvalidMarkers(line, chk)
  }

  /** The loop that fills `missing_list`, one joined `miss` per row. */
  method MissingList(sheet: seq<Line>, chk: Checks) returns (ml: seq<string>)
    ensures ml == Joined(Stage0(sheet, chk))
  {
    ghost var want := Joined(Stage0(sheet, chk));
    ml := [];
    for i := 0 to |sheet|
      invariant ml == want[..i]
    {
      var miss := RowMissing(sheet[i], chk);
      var joined := Join(miss, ", ");
      assert joined == want[i];
      PrefixSnoc(want, i);
      ml := ml + [joined];
    }
    assert want[..|sheet|] == want;
  }

  /** The body of the row loop: the comprehension, then the three numeric checks. */
  method RowMissing(line: Line, chk: Checks) returns (miss: seq<string>)
    ensures miss == Missing(line, chk)
  {
    miss := BlankRequired(line, chk.required);
    var m1 := CheckNumber(line, "QTD_MED", chk.floatOk, chk.msg.medInvalid);
    var m2 := CheckNumber(line, "QTD_EMB_COMERCIAL", chk.intOk, chk.msg.comercialInvalid);
    var m3 := CheckNumber(line, "QTD_EMB_PRODUTO", chk.intOk, chk.msg.produtoInvalid);
    miss := miss + (m1 + m2 + m3);
  }

  /** `if str(row[c]).strip() != "" and parse(row[c]) is None: miss.append(marker)` */
  method CheckNumber(line: Line, c: string, parses: string -> bool, marker: string) returns (m: seq<string>)
    ensures m == Marker(line, c, parses, marker)
  {
    m := [];
    var cell := Field(line, c);
    if Strip(cell) != "" && !parses(cell) {
      m := [marker];
    }
  }

  // ---------------------------------------------------------------------------
  // Duplicate flags

  /** `duplicated(subset=["CODIGO_PRODUTO"], keep=False) & (code != "")`: the code is
      not blank and occurs at least twice in the sheet. */
  predicate FileDup(codes: seq<string>, i: nat)
    requires i < |codes|
  {
    codes[i] != "" && multiset(codes)[codes[i]] >= 2
  }

  /** The flag marks exactly the rows that share their non-blank code with another row. */
  lemma FileDupIff(codes: seq<string>, i: nat)
    requires i < |codes|
    ensures FileDup(codes, i) <==> codes[i] != "" && exists j :: 0 <= j < |codes| && j != i && codes[j] == codes[i]
  {
    var x := codes[i];
    assert codes == codes[..i] + [x] + codes[i + 1..];
    assert multiset(codes)[x] == multiset(codes[..i])[x] + 1 + multiset(codes[i + 1..])[x];
    if multiset(codes)[x] >= 2 {
      if x in multiset(codes[..i]) {
        var j :| 0 <= j < i && codes[..i][j] == x;
        assert codes[j] == x;
      } else {
        assert x in codes[i + 1..];
        var j :| 0 <= j < |codes[i + 1..]| && codes[i + 1..][j] == x;
        assert codes[i + 1 + j] == x;
      }
    }
    if exists j :: 0 <= j < |codes| && j != i && codes[j] == x {
      var j :| 0 <= j < |codes| && j != i && codes[j] == x;
      if j < i {
        assert codes[..i][j] == x;
        assert x in multiset(codes[..i]);
      } else {
        assert codes[i + 1..][j - i - 1] == x;
        assert x in multiset(codes[i + 1..]);
      }
    }
  }

  function FileDupMask(codes: seq<string>): (m: seq<bool>)
    ensures |m| == |codes| && forall i :: 0 <= i < |codes| ==> m[i] == FileDup(codes, i)
  {
    seq(|codes|, i requires 0 <= i < |codes| => FileDup(codes, i))
  }

  /** `df_out["CODIGO_PRODUTO"].isin(found)` */
  function InMask(codes: seq<string>, found: set<string>): (m: seq<bool>)
    ensures |m| == |codes| && forall i :: 0 <= i < |codes| ==> m[i] == (codes[i] in found)
  {
    seq(|codes|, i requires 0 <= i < |codes| => codes[i] in found)
  }

  /** The codes sent to the lookup of existing codes: the sheet's non-blank codes. */
  function QueriedCodes(codes: seq<string>): set<string> {
    set i | 0 <= i < |codes| && codes[i] != "" :: codes[i]
  }

  /** When the lookup answers only about the codes it was asked for, a row with a blank
      code gets no duplicate flag of any kind. */
  lemma BlankCodeNeverFlagged(codes: seq<string>, aprv: set<string>, pend: set<string>, i: nat)
    requires aprv <= QueriedCodes(codes) && pend <= QueriedCodes(codes)
    requires i < |codes| && codes[i] == ""
    ensures !FileDup(codes, i) && codes[i] !in aprv && codes[i] !in pend
  {
  }

  // ---------------------------------------------------------------------------
  // The explanation column

  /** One masked cell of `append_reason`: the stripped text, a comma and the reason, or
      the reason alone when the text is blank. */
  function Reasoned(s: string, reason: string): string {
    if Strip(s) != "" then Strip(s) + ", " + reason else reason
  }

  /** The column after `append_reason(df, mask, reason)`. */
  function Appended(col: seq<string>, mask: seq<bool>, reason: string): (r: seq<string>)
    requires |mask| == |col|
    ensures |r| == |col|
  {
    seq(|col|, i requires 0 <= i < |col| => if mask[i] then Reasoned(col[i], reason) else col[i])
  }

  /** `append_reason`: rewrites the masked cells of the column in place. */
  method AppendReason(expl: array<string>, mask: seq<bool>, reason: string)
    requires |mask| == expl.Length
    modifies expl
    ensures expl[..] == Appended(old(expl[..]), mask, reason)
  {
    for i := 0 to expl.Length
      invariant forall j :: 0 <= j < i ==> expl[j] == Appended(old(expl[..]), mask, reason)[j]
      invariant forall j :: i <= j < expl.Length ==> expl[j] == old(expl[j])
    {
      if mask[i] {
        expl[i] := Reasoned(expl[i], reason);
      }
    }
  }

  /** The reasons of one row, in the order the page appends them: the missing list, the
      in-file duplicate, then the approved and the pending table. */
  function Reasons(sheet: seq<Line>, aprv: set<string>, pend: set<string>, chk: Checks, i: nat): seq<string>
    requires i < |sheet|
  {
    var codes := Codes(sheet);
    ((Missing(sheet[i], chk)
      + (if FileDup(codes, i) then [chk.msg.fileDup] else []))
      + (if codes[i] in aprv then [chk.msg.inAprovados] else []))
      + (if codes[i] in pend then [chk.msg.inPendentes] else [])
  }

  /** The `EXPLICAÇÃO` column: each row's reasons joined with `", "`. */
  function Explanations(sheet: seq<Line>, aprv: set<string>, pend: set<string>, chk: Checks): (r: seq<string>)
    ensures |r| == |sheet|
  {
    seq(|sheet|, i requires 0 <= i < |sheet| => Join(Reasons(sheet, aprv, pend, chk, i), ", "))
  }

  /** Text with no white space at either end. */
  predicate Tidy(s: string) {
    |s| > 0 && !IsSpace(s[0]) && !IsSpace(s[|s| - 1])
  }

  predicate AllTidy(parts: seq<string>) {
    forall k :: 0 <= k < |parts| ==> Tidy(parts[k])
  }

  lemma RequiredTidy()
    ensures AllTidy(REQUIRED)
  {
    forall k | 0 <= k < |REQUIRED| ensures Tidy(REQUIRED[k]) {
      CapitalsTidy(REQUIRED[k]);
    }
  }

  /** A name that starts and ends with a capital letter has no surrounding blanks. */
  lemma CapitalsTidy(s: string)
    requires |s| > 0 && 'A' <= s[0] <= 'Z' && 'A' <= s[|s| - 1] <= 'Z'
    ensures Tidy(s)
  {
  }

  predicate MessagesTidy(msg: Messages) {
    && Tidy(msg.medInvalid) && Tidy(msg.comercialInvalid) && Tidy(msg.produtoInvalid)
    && Tidy(msg.fileDup) && Tidy(msg.inAprovados) && Tidy(msg.inPendentes)
  }

  lemma PageMessagesTidy()
    ensures MessagesTidy(MESSAGES)
  {
  }

  lemma PageChecksTidy(chk: Checks)
    requires PageChecks(chk)
    ensures AllTidy(chk.required) && MessagesTidy(chk.msg)
  {
    RequiredTidy();
    PageMessagesTidy();
  }

  lemma AllTidyAppend(a: seq<string>, b: seq<string>)
    requires AllTidy(a) && AllTidy(b)
    ensures AllTidy(a + b)
  {
  }

  lemma MissingTidy(line: Line, chk: Checks)
    requires AllTidy(chk.required) && MessagesTidy(chk.msg)
    ensures AllTidy(Missing(line, chk))
  {
    BlankRequiredTidy(line, chk.required);
    InvalidMarkersTidy(line, chk);
    AllTidyAppend(BlankRequired(line, chk.required), InvalidMarkers(line, chk));
  }

  lemma BlankRequiredTidy(line: Line, cols: seq<string>)
    requires AllTidy(cols)
    ensures AllTidy(BlankRequired(line, cols))
  {
    var b := BlankRequired(line, cols);
    forall k | 0 <= k < |b| ensures Tidy(b[k]) {
      var j :| 0 <= j < |cols| && cols[j] == b[k];
    }
  }

  lemma InvalidMarkersTidy(line: Line, chk: Checks)
    requires MessagesTidy(chk.msg)
    ensures AllTidy(InvalidMarkers(line, chk))
  {
    var m1 := Marker(line, "QTD_MED", chk.floatOk, chk.msg.medInvalid);
    var m2 := Marker(line, "QTD_EMB_COMERCIAL", chk.intOk, chk.msg.comercialInvalid);
    var m3 := Marker(line, "QTD_EMB_PRODUTO", chk.intOk, chk.msg.produtoInvalid);
    MarkerTidy(line, "QTD_MED", chk.floatOk, chk.msg.medInvalid);
    MarkerTidy(line, "QTD_EMB_COMERCIAL", chk.intOk, chk.msg.comercialInvalid);
    MarkerTidy(line, "QTD_EMB_PRODUTO", chk.intOk, chk.msg.produtoInvalid);
    AllTidyAppend(m1, m2);
    AllTidyAppend(m1 + m2, m3);
  }

  lemma MarkerTidy(line: Line, c: string, parses: string -> bool, marker: string)
    requires Tidy(marker)
    ensures AllTidy(Marker(line, c, parses, marker))
  {
  }

  /** A join of tidy parts is itself tidy, or empty. */
  lemma {:induction false} JoinTidy(parts: seq<string>, sep: string)
    requires parts != [] && AllTidy(parts)
    ensures Tidy(Join(parts, sep))
    decreases |parts|
  {
    if |parts| > 1 {
      JoinTidy(parts[1..], sep);
      var rest := Join(parts[1..], sep);
      assert Join(parts, sep) == parts[0] + sep + rest;
    }
  }

  /** `append_reason` on a joined list is the join of the list with the reason added. */
  lemma ReasonedJoin(parts: seq<string>, reason: string)
    requires AllTidy(parts)
    ensures Reasoned(Join(parts, ", "), reason) == Join(parts + [reason], ", ")
  {
    if parts == [] {
      assert parts + [reason] == [reason];
      assert Strip("") == "";
    } else {
      JoinTidy(parts, ", ");
      StripNoEnds(Join(parts, ", "));
      JoinAppend(parts, reason, ", ");
    }
  }

  /** The joins of the lists, row by row. */
  function Joined(parts: seq<seq<string>>): (r: seq<string>)
    ensures |r| == |parts|
  {
    seq(|parts|, i requires 0 <= i < |parts| => Join(parts[i], ", "))
  }

  function Extended(parts: seq<seq<string>>, mask: seq<bool>, reason: string): (r: seq<seq<string>>)
    requires |mask| == |parts|
    ensures |r| == |parts|
  {
    seq(|parts|, i requires 0 <= i < |parts| => parts[i] + (if mask[i] then [reason] else []))
  }

  lemma AppendedJoined(parts: seq<seq<string>>, mask: seq<bool>, reason: string)
    requires |mask| == |parts| && forall i :: 0 <= i < |parts| ==> AllTidy(parts[i])
    ensures Appended(Joined(parts), mask, reason) == Joined(Extended(parts, mask, reason))
  {
    forall i | 0 <= i < |parts|
      ensures Appended(Joined(parts), mask, reason)[i] == Joined(Extended(parts, mask, reason))[i]
    {
      if mask[i] {
        ReasonedJoin(parts[i], reason);
      } else {
        assert parts[i] + [] == parts[i];
      }
    }
  }

  /** The missing lists of the rows, before any reason is appended. */
  function Stage0(sheet: seq<Line>, chk: Checks): (p: seq<seq<string>>)
    ensures |p| == |sheet| && forall i :: 0 <= i < |sheet| ==> p[i] == Missing(sheet[i], chk)
  {
    seq(|sheet|, i requires 0 <= i < |sheet| => Missing(sheet[i], chk))
  }

  lemma Stage0Tidy(sheet: seq<Line>, chk: Checks)
    requires AllTidy(chk.required) && MessagesTidy(chk.msg)
    ensures forall i :: 0 <= i < |sheet| ==> AllTidy(Stage0(sheet, chk)[i])
  {
    forall i | 0 <= i < |sheet| ensures AllTidy(Stage0(sheet, chk)[i]) {
      MissingTidy(sheet[i], chk);
    }
  }

  /** The three appends, in page order, turn the missing lists into the explanations. */
  lemma StagesExplain(sheet: seq<Line>, aprv: set<string>, pend: set<string>, chk: Checks)
    ensures var codes := Codes(sheet);
      Extended(Extended(Extended(Stage0(sheet, chk), FileDupMask(codes), chk.msg.fileDup),
                        InMask(codes, aprv), chk.msg.inAprovados), InMask(codes, pend), chk.msg.inPendentes)
      == seq(|sheet|, i requires 0 <= i < |sheet| => Reasons(sheet, aprv, pend, chk, i))
  {
  }

  /** Joined, the three appends give the `EXPLICAÇÃO` column. */
  lemma ExplainedByStages(sheet: seq<Line>, aprv: set<string>, pend: set<string>, chk: Checks)
    ensures var codes := Codes(sheet);
      Joined(Extended(Extended(Extended(Stage0(sheet, chk), FileDupMask(codes), chk.msg.fileDup),
                      InMask(codes, aprv), chk.msg.inAprovados), InMask(codes, pend), chk.msg.inPendentes))
      == Explanations(sheet, aprv, pend, chk)
  {
    StagesExplain(sheet, aprv, pend, chk);
  }

  /** The preview: the missing lists, then the three `append_reason` calls in page order.
      `aprv` and `pend` are the codes the lookup found in the approved and pending tables.
      The page's column names and texts have no white space at their ends
      (`PageChecksTidy`), which is what lets each append extend the joined list. */
  method Preview(sheet: seq<Line>, aprv: set<string>, pend: set<string>, chk: Checks)
    returns (expl: array<string>)
    requires AllTidy(chk.required) && MessagesTidy(chk.msg)
    ensures fresh(expl)
    ensures expl[..] == Explanations(sheet, aprv, pend, chk)
  {
    expl := StartColumn(sheet, chk);
    var codes := Codes(sheet);
    ghost var p0 := Stage0(sheet, chk);
    Stage0Tidy(sheet, chk);
    var m1 := FileDupMask(codes);
    AppendStage(expl, p0, m1, chk.msg.fileDup);
    ghost var p1 := Extended(p0, m1, chk.msg.fileDup);
    var m2 := InMask(codes, aprv);
    AppendStage(expl, p1, m2, chk.msg.inAprovados);
    ghost var p2 := Extended(p1, m2, chk.msg.inAprovados);
    var m3 := InMask(codes, pend);
    AppendStage(expl, p2, m3, chk.msg.inPendentes);
    ExplainedByStages(sheet, aprv, pend, chk);
  }

  /** `df_out["EXPLICAÇÃO"] = missing_list`: a new column holding the joined missing lists. */
  method StartColumn(sheet: seq<Line>, chk: Checks) returns (expl: array<string>)
    ensures fresh(expl)
    ensures expl[..] == Joined(Stage0(sheet, chk))
  {
    var ml := MissingList(sheet, chk);
    expl := new string[|ml|](i => if 0 <= i < |ml| then ml[i] else "");
  }

  /** One `append_reason` call, seen on the lists behind the column. */
  method AppendStage(expl: array<string>, ghost parts: seq<seq<string>>, mask: seq<bool>, reason: string)
    requires |mask| == |parts| == expl.Length && Tidy(reason)
    requires forall i :: 0 <= i < |parts| ==> AllTidy(parts[i])
    requires expl[..] == Joined(parts)
    modifies expl
    ensures expl[..] == Joined(Extended(parts, mask, reason))
    ensures forall i :: 0 <= i < |parts| ==> AllTidy(Extended(parts, mask, reason)[i])
  {
    AppendedJoined(parts, mask, reason);
    AppendReason(expl, mask, reason);
  }

  /** `has_errors`: the explanation is not blank after stripping. */
  predicate HasErrors(s: string) {
    Strip(s) != ""
  }

  /** A row is free of errors exactly when nothing is missing or unreadable and its code
      is neither repeated in the sheet nor already in either table. */
  lemma ValidIff(sheet: seq<Line>, aprv: set<string>, pend: set<string>, chk: Checks, i: nat)
    requires i < |sheet| && AllTidy(chk.required) && MessagesTidy(chk.msg)
    ensures !HasErrors(Explanations(sheet, aprv, pend, chk)[i]) <==>
      && Missing(sheet[i], chk) == []
      && !FileDup(Codes(sheet), i)
      && Code(sheet[i]) !in aprv
      && Code(sheet[i]) !in pend
  {
    var parts := Reasons(sheet, aprv, pend, chk, i);
    assert Explanations(sheet, aprv, pend, chk)[i] == Join(parts, ", ");
    ReasonsTidy(sheet, aprv, pend, chk, i);
    JoinBlankIff(parts, ", ");
    ReasonsEmptyIff(sheet, aprv, pend, chk, i);
  }

  lemma ReasonsTidy(sheet: seq<Line>, aprv: set<string>, pend: set<string>, chk: Checks, i: nat)
    requires i < |sheet| && AllTidy(chk.required) && MessagesTidy(chk.msg)
    ensures AllTidy(Reasons(sheet, aprv, pend, chk, i))
  {
    var codes := Codes(sheet);
    MissingTidy(sheet[i], chk);
    FlaggedTidy(Missing(sheet[i], chk), FileDup(codes, i), chk.msg.fileDup,
      codes[i] in aprv, chk.msg.inAprovados, codes[i] in pend, chk.msg.inPendentes);
  }

  lemma FlaggedTidy(m: seq<string>, f1: bool, r1: string, f2: bool, r2: string, f3: bool, r3: string)
    requires AllTidy(m) && Tidy(r1) && Tidy(r2) && Tidy(r3)
    ensures AllTidy(((m + (if f1 then [r1] else [])) + (if f2 then [r2] else [])) + (if f3 then [r3] else []))
  {
    var a := if f1 then [r1] else [];
    var b := if f2 then [r2] else [];
    var c := if f3 then [r3] else [];
    AllTidyAppend(m, a);
    AllTidyAppend(m + a, b);
    AllTidyAppend((m + a) + b, c);
  }

  lemma ReasonsEmptyIff(sheet: seq<Line>, aprv: set<string>, pend: set<string>, chk: Checks, i: nat)
    requires i < |sheet|
    ensures Reasons(sheet, aprv, pend, chk, i) == [] <==>
      && Missing(sheet[i], chk) == []
      && !FileDup(Codes(sheet), i)
      && Code(sheet[i]) !in aprv
      && Code(sheet[i]) !in pend
  {
  }

  /** A join of tidy parts is blank exactly when there are no parts. */
  lemma JoinBlankIff(parts: seq<string>, sep: string)
    requires AllTidy(parts)
    ensures !HasErrors(Join(parts, sep)) <==> parts == []
  {
    if parts == [] {
      assert Strip("") == "";
    } else {
      JoinTidy(parts, sep);
      StripNoEnds(Join(parts, sep));
    }
  }

  /** A row holding all three duplicate flags and nothing missing is explained by the
      three reasons in the order in-file, approved, pending. */
  lemma ReasonOrder(sheet: seq<Line>, aprv: set<string>, pend: set<string>, chk: Checks, i: nat)
    requires i < |sheet| && Missing(sheet[i], chk) == []
    requires FileDup(Codes(sheet), i) && Code(sheet[i]) in aprv && Code(sheet[i]) in pend
    ensures Explanations(sheet, aprv, pend, chk)[i] ==
      chk.msg.fileDup + ", " + chk.msg.inAprovados + ", " + chk.msg.inPendentes
  {
    AllFlagged(sheet, aprv, pend, chk, i);
    JoinThree(chk.msg.fileDup, chk.msg.inAprovados, chk.msg.inPendentes, ", ");
  }

  lemma AllFlagged(sheet: seq<Line>, aprv: set<string>, pend: set<string>, chk: Checks, i: nat)
    requires i < |sheet| && Missing(sheet[i], chk) == []
    requires FileDup(Codes(sheet), i) && Code(sheet[i]) in aprv && Code(sheet[i]) in pend
    ensures Reasons(sheet, aprv, pend, chk, i) == [chk.msg.fileDup, chk.msg.inAprovados, chk.msg.inPendentes]
  {
    var codes := Codes(sheet);
    assert codes[i] == Code(sheet[i]);
    FlaggedThrice(Missing(sheet[i], chk), FileDup(codes, i), chk.msg.fileDup,
      codes[i] in aprv, chk.msg.inAprovados, codes[i] in pend, chk.msg.inPendentes);
  }

  lemma FlaggedThrice(m: seq<string>, f1: bool, r1: string, f2: bool, r2: string, f3: bool, r3: string)
    requires m == [] && f1 && f2 && f3
    ensures ((m + (if f1 then [r1] else [])) + (if f2 then [r2] else [])) + (if f3 then [r3] else []) == [r1, r2, r3]
  {
  }

  lemma JoinThree(a: string, b: string, c: string, sep: string)
    ensures Join([a, b, c], sep) == a + sep + b + sep + c
  {
    assert [a, b, c][1..] == [b, c] && [b, c][1..] == [c];
    assert Join([b, c], sep) == b + sep + c;
    assert Join([a, b, c], sep) == a + sep + (b + sep + c);
  }

  // ---------------------------------------------------------------------------
  // The valid / error split

  /** `has_errors`, row by row. */
  function ErrorFlags(expl: seq<string>): (f: seq<bool>)
    ensures |f| == |expl| && forall i :: 0 <= i < |expl| ==> f[i] == HasErrors(expl[i])
  {
    seq(|expl|, i requires 0 <= i < |expl| => HasErrors(expl[i]))
  }

  /** `df_out.loc[mask]`: the positions whose flag is `keep`, in sheet order. */
  function Split(flags: seq<bool>, keep: bool): (r: seq<nat>)
    ensures |r| <= |flags|
    decreases |flags|
  {
    if flags == [] then []
    else Split(flags[..|flags| - 1], keep) + (if flags[|flags| - 1] == keep then [|flags| - 1] else [])
  }

  /** Each position lands in the part its flag names. */
  lemma {:induction false} SplitMember(flags: seq<bool>, keep: bool, k: nat)
    ensures k in Split(flags, keep) <==> k < |flags| && flags[k] == keep
    decreases |flags|
  {
    if flags != [] {
      var n := |flags| - 1;
      SplitMember(flags[..n], keep, k);
      if k < n {
        assert flags[..n][k] == flags[k];
      }
    }
  }

  /** The parts are in sheet order, without repeats. */
  lemma {:induction false} SplitIncreasing(flags: seq<bool>, keep: bool)
    ensures forall a :: 0 <= a < |Split(flags, keep)| ==> Split(flags, keep)[a] < |flags|
    ensures forall a, b :: 0 <= a < b < |Split(flags, keep)| ==> Split(flags, keep)[a] < Split(flags, keep)[b]
    decreases |flags|
  {
    if flags != [] {
      var n := |flags| - 1;
      SplitIncreasing(flags[..n], keep);
      var prev := Split(flags[..n], keep);
      var r := Split(flags, keep);
      assert |flags[..n]| == n;
      assert forall a :: 0 <= a < |prev| ==> prev[a] < n;
      assert r == prev + (if flags[n] == keep then [n] else []);
      assert forall a :: 0 <= a < |prev| ==> r[a] == prev[a];
      assert forall a :: |prev| <= a < |r| ==> r[a] == n;
    }
  }

  /** Valid rows and error rows together are as many as the sheet's rows. */
  lemma {:induction false} SplitSizes(flags: seq<bool>)
    ensures |Split(flags, false)| + |Split(flags, true)| == |flags|
    decreases |flags|
  {
    if flags != [] {
      SplitSizes(flags[..|flags| - 1]);
    }
  }

  /** The upload button is enabled exactly when some row is valid. */
  predicate CanUpload(expl: seq<string>) {
    Split(ErrorFlags(expl), false) != []
  }

  lemma CanUploadIff(expl: seq<string>)
    ensures CanUpload(expl) <==> exists k :: 0 <= k < |expl| && !HasErrors(expl[k])
  {
    var f := ErrorFlags(expl);
    if CanUpload(expl) {
      var k := Split(f, false)[0];
      SplitMember(f, false, k);
    }
    if exists k :: 0 <= k < |expl| && !HasErrors(expl[k]) {
      var k :| 0 <= k < |expl| && !HasErrors(expl[k]);
      SplitMember(f, false, k);
    }
  }

  /** The `__LINHA_EXCEL__` column as written: `df_errors.reset_index().index + 2` numbers
      the error rows 2, 3, 4, ... by their place among the error rows. */
  function ErrorSheetLines(expl: seq<string>): (r: seq<nat>)
    ensures |r| == |Split(ErrorFlags(expl), true)|
  {
    seq(|Split(ErrorFlags(expl), true)|, j requires 0 <= j < |Split(ErrorFlags(expl), true)| => j + 2)
  }

  /** The line number the comment promises: the row's place in the sheet plus the header
      and the base 1, as the upload's failure list numbers its rows. */
  function ErrorLines(expl: seq<string>): (r: seq<nat>)
    ensures |r| == |Split(ErrorFlags(expl), true)|
  {
    seq(|Split(ErrorFlags(expl), true)|, j requires 0 <= j < |Split(ErrorFlags(expl), true)| => Split(ErrorFlags(expl), true)[j] + 2)
  }

  /** A valid first row and an error second row: the error row sits on sheet line 3 but
      is labelled 2. */
  lemma ErrorSheetLinesShifted()
    ensures ErrorSheetLines(["", "GRUPO"]) == [2]
    ensures ErrorLines(["", "GRUPO"]) == [3]
  {
    var e := ["", "GRUPO"];
    assert Strip("") == "";
    StripNoEnds("GRUPO");
    var f := ErrorFlags(e);
    assert f == [false, true];
    assert f[..1] == [false] && [false][..0] == [];
    assert Split(f, true) == [1];
  }

  /** Every corrected line number points back at an error row of the sheet. */
  lemma ErrorLinesPointBack(expl: seq<string>, j: nat)
    requires j < |ErrorLines(expl)|
    ensures 2 <= ErrorLines(expl)[j] < |expl| + 2
    ensures HasErrors(expl[ErrorLines(expl)[j] - 2])
  {
    var k := Split(ErrorFlags(expl), true)[j];
    SplitMember(ErrorFlags(expl), true, k);
  }

  // ---------------------------------------------------------------------------
  // The upload loop

  /** The sheet lines of the valid rows whose insert failed, in order. */
  function FailedLines(valid: seq<nat>, inserted: seq<bool>): (r: seq<nat>)
    requires |inserted| == |valid|
    ensures |r| <= |valid|
    decreases |valid|
  {
    if valid == [] then []
    else
      var n := |valid| - 1;
      FailedLines(valid[..n], inserted[..n]) + (if inserted[n] then [] else [valid[n] + 2])
  }

  /** `for idx, row in df_valid.iterrows(): ok, msg = insert_item(...)`. `inserted[k]` is
      the answer of the insert of the k-th valid row. */
  method UploadValid(valid: seq<nat>, inserted: seq<bool>) returns (okCount: nat, fails: seq<nat>)
    requires |inserted| == |valid|
    ensures okCount + |fails| == |valid|
    ensures okCount == |valid| <==> forall k :: 0 <= k < |inserted| ==> inserted[k]
    ensures fails == FailedLines(valid, inserted)
  {
    okCount := 0;
    fails := [];
    for k := 0 to |valid|
      invariant okCount + |fails| == k
      invariant okCount == k <==> forall j :: 0 <= j < k ==> inserted[j]
      invariant fails == FailedLines(valid[..k], inserted[..k])
    {
      assert valid[..k + 1][..k] == valid[..k] && inserted[..k + 1][..k] == inserted[..k];
      if inserted[k] {
        okCount := okCount + 1;
      } else {
        fails := fails + [valid[k] + 2];
      }
    }
    assert valid[..|valid|] == valid && inserted[..|inserted|] == inserted;
  }

  /** Every failure names the line of a valid row whose insert failed. */
  lemma {:induction false} FailedLinesSound(valid: seq<nat>, inserted: seq<bool>, j: nat) returns (k: nat)
    requires |inserted| == |valid| && j < |FailedLines(valid, inserted)|
    ensures k < |valid| && !inserted[k] && FailedLines(valid, inserted)[j] == valid[k] + 2
    decreases |valid|
  {
    var n := |valid| - 1;
    var prev := FailedLines(valid[..n], inserted[..n]);
    if j < |prev| {
      k := FailedLinesSound(valid[..n], inserted[..n], j);
      assert valid[..n][k] == valid[k] && inserted[..n][k] == inserted[k];
    } else {
      k := n;
    }
  }

  /** Every valid row whose insert failed is reported. */
  lemma {:induction false} FailedLinesComplete(valid: seq<nat>, inserted: seq<bool>, k: nat)
    requires |inserted| == |valid| && k < |valid| && !inserted[k]
    ensures valid[k] + 2 in FailedLines(valid, inserted)
    decreases |valid|
  {
    var n := |valid| - 1;
    if k < n {
      assert valid[..n][k] == valid[k] && inserted[..n][k] == inserted[k];
      FailedLinesComplete(valid[..n], inserted[..n], k);
    }
  }

  // ---------------------------------------------------------------------------
  // The manual form

  /** The form's required entries, a dict in `REQUIRED` order. */
  function FormEntries(fields: map<string, Value>): (d: seq<(string, Value)>)
    ensures |d| == |REQUIRED| && forall k :: 0 <= k < |REQUIRED| ==> d[k] == (REQUIRED[k], Get(fields, REQUIRED[k]))
  {
    seq(|REQUIRED|, k requires 0 <= k < |REQUIRED| => (REQUIRED[k], Get(fields, REQUIRED[k])))
  }

  /** `(codigo_produto or "").strip()` */
  function FormCode(fields: map<string, Value>): string {
    match Get(fields, "CODIGO_PRODUTO")
    case VStr(s) => Strip(s)
    case _ => ""
  }

  /** How the "Salvar" button ended. */
  datatype FormOutcome =
    | Incomplete(missing: seq<string>)     // "Preencha: ..."
    | Approved(code: string)               // the code is already approved
    | Pending(code: string)                // the code already waits in the pending table
    | Submitted(code: string)              // `insert_item` is called

  /** The form's save: the required check (zeros count as missing), then the lookup of the
      trimmed code. `lookup` stands for `codigo_produto_exists_any`: the origin table of an
      existing code, or none. */
  method SubmitForm(fields: map<string, Value>, lookup: string -> Option<string>) returns (out: FormOutcome)
    ensures out.Incomplete? <==> MissingKeys(FormEntries(fields), true) != []
    ensures out.Incomplete? ==> out.missing == MissingKeys(FormEntries(fields), true)
    ensures !out.Incomplete? ==>
      && out.code == FormCode(fields)
      && (out.Submitted? <==> lookup(FormCode(fields)).None?)
      && (out.Approved? <==> lookup(FormCode(fields)) == Some("APROVADOS"))
  {
    var ok, faltando := CamposObrigatoriosOk(FormEntries(fields), true);
    if !ok {
      return Incomplete(faltando);
    }
    var code := FormCode(fields);
    var found := lookup(code);
    if found.Some? {
      if found.value == "APROVADOS" {
        out := Approved(code);
      } else {
        out := Pending(code);
      }
    } else {
      out := Submitted(code);
    }
  }
}
