# Catalogue app core in Dafny

A model of the core of a Streamlit/Snowflake application that maintains a
product catalogue. Items are registered into a pending table. Validators
approve them (the item moves to the approved store) or reject them (it moves
to the correction store). Rejected items are corrected and sent back to
validation. Catalogue items can be edited in place, given an INSUMO in batch,
or removed into an archive with a log. An administration page manages the
users and their roles, and the entry point decides which pages a role sees.

The model has three layers.

- **Values and text** (`cells.dfy`, `text.dfy`, `sqltext.dfy`).
  - Cells are null, text, integer, float (kept as its Python `repr`) or boolean.
  - The Python operations the pages apply to cells are written out: `str`,
    `pd.isna`, truthiness, `==`, `strip`, `upper`, `lower`, `join`, `sorted`.
  - The SQL literal writers (`sql_str`, `_sql_escape`, `_esc`) come with two
    readers of the text they produce: standard SQL quote doubling, and
    Snowflake's backslash escapes.
  - The page plans store, for each literal, the value the standard reader
    gives (`SqlStrValue`, `SqlEscapeValue`, the text of `_esc`). Snowflake reads
    the same value when the text has no backslash, and for any text once the
    backslashes are escaped as well (`SqlStrSafe`). The literal as written
    reads differently when the text holds a backslash (see Findings), and the
    page members that store text are weaker on that point (see Left out).
- **The store** (`store.dfy`).
  - Tables are a column list and a sequence of rows. Nothing enforces the ID
    key, so an INSERT appends.
  - The statements the pages build are a small datatype (`INSERT … SELECT`,
    `INSERT … VALUES`, `UPDATE … SET … WHERE col IN (…)`, `DELETE`), with their
    effect given by `Exec` and `RunAll`.
  - The `Db` class holds the tables and runs statements three ways:
    - in one transaction (`BEGIN`, the statements, `COMMIT`, or `ROLLBACK` to
      the snapshot);
    - each in its own autocommit;
    - in autocommit until the first failure.
  - Failures outside the model (network, permissions, locks) are a set of
    statement positions given by the caller.
- **The pages**, one module each:
  - `validacao.dfy` and `validacao_audit.dfy`: the two decision variants.
  - `naoaprovados.dfy`: resubmission.
  - `exclusao.dfy`: removal.
  - `atualizacao.dfy`: both in-place update pages.
  - `insumo.dfy`: the INSUMO batch and upload.
  - `cadastro.dfy`: registration.
  - `usuarios.dfy`: user administration.
  - `navigation.dfy`: the entry point's role matrix.
  - `filters.dfy`: the search masks and select-box options.
  - `columns.dfy`: column orders and header normalisation.
  - `utils.dfy`: the `KEY: VALUE;` scanner and the required-field check.
  - `moves.dfy`: the copy-stamp-delete shape the transitions share.

Each page action is a method.

- Its statements are planned by a pure function that mirrors the SQL the page
  builds.
- The method runs them through `Db`.
- Its `ensures` ties the outcome and the new tables to that plan, including the
  error paths:
  - nothing selected;
  - a missing table before `BEGIN`;
  - a failing statement.
- Lemmas then state what the move means: which rows arrive where, with which
  stamps, what is deleted, and that nothing else changes.

Functions the pages compute with loops are methods proved equal to recursive
specification functions. Lemmas about those functions state the promised
properties.

Clocks, the signed-in user and the results of helpers outside this model are
parameters:
- `CURRENT_TIMESTAMP` / `data_hoje()` values;
- `current_user()`;
- the code lookups of the registration page;
- the numeric parsers.

## Model

| member | source | states |
|---|---|---|
| Navigation.KeyIndex | main.py:24-33 | each page key has one position in the page table |
| Navigation.MatrixNamesPages | main.py:35-39 | every matrix entry names pages of the table, each at most once |
| Navigation.RolesNested | main.py:35-39 | USER's pages are among OPERACIONAL's, and those are among ADMIN's |
| Navigation.DefaultsToUser | main.py:42-43 | no role, an empty role or an unknown role gets exactly Home and Catalogue |
| Navigation.RoleCaseInsensitive | main.py:42 | the letter case of the role does not change the pages |
| Navigation.RoleLeadingBlank | main.py:42 | a leading blank on a non-empty role does not change the pages |
| Navigation.AdminGetsAll | main.py:38-44 | ADMIN, however spelled, gets every page of the table, in the table's order |
| Text.TrimLeft | main.py:42 | the left trim leaves no leading whitespace and is no longer than its input |
| Text.TrimRight | main.py:42 | the right trim leaves no trailing whitespace and is no longer than its input |
| Text.StripIdempotent | main.py:42 | `strip()` applied twice is `strip()` applied once |
| Text.StripEmptyIff | pages/2_Cadastro.py:201 | a string strips to "" exactly when it is made only of whitespace |
| Text.StripNoEnds | pages/2_Cadastro.py:208 | a string with no whitespace at either end is its own strip |
| Text.Upper | main.py:42 | `upper()` keeps the length and maps each character on its own |
| Text.Lower | pages/8_Usuarios.py:153 | `lower()` keeps the length and maps each character on its own |
| Text.UpperIdempotent | main.py:42 | upper-casing twice is upper-casing once |
| Text.JoinAppend | pages/2_Cadastro.py:208 | joining a list with one more part appends the separator and that part |
| Text.JoinEmptyIff | pages/2_Cadastro.py:208 | a join of non-empty parts is empty exactly when there are no parts |
| Text.ContainsIff | pages/1_Catalogo.py:66 | `needle in hay` holds exactly when the needle occurs at some position of the hay |
| Text.LessTotal | pages/1_Catalogo.py:43 | string order is total |
| Text.LessTransitive | pages/1_Catalogo.py:43 | string order is transitive |
| Text.InsertSortedSorted | pages/1_Catalogo.py:43 | inserting into a sorted list keeps it sorted |
| Text.SortStrings | pages/1_Catalogo.py:43 | `sorted` returns a sorted permutation of its input |
| Text.IntToString | pages/3_Validacao.py:166 | `str(i)` is a non-empty run of digits, led by a minus sign exactly when `i` is negative |
| Text.ParseInt | pages/7_Exclusao.py:34 | `int(s)` reads a digit string, after stripping, as its decimal value |
| Text.ParseIntToString | pages/3_Validacao.py:156 | `int(str(i)) == i` |
| Cells.PyInt | pages/3_Validacao.py:156 | `int(v)` of an integer is that integer, and of None raises |
| Cells.AsString | pages/8_Usuarios.py:109 | `astype("string")` is missing exactly for the missing values |
| Cells.PyEqReflexive | pages/3_Atualizacao.py:124 | `v == v` holds for every cell except a float NaN |
| Cells.PyEqSymmetric | pages/3_Atualizacao.py:124 | `==` on cells is symmetric |
| Cells.PyEqTransitive | pages/3_Atualizacao.py:124 | `==` on cells is transitive |
| Cells.NaNNeverEqual | pages/3_Validacao.py:51 | a float NaN equals nothing, itself included |
| Cells.PyIntOfPyStr | pages/3_Validacao.py:166 | `int(str(i)) == i` for an integer cell |
| SqlText.DoubleQuotes | pages/3_Validacao.py:53 | `replace("'", "''")` never shortens the text |
| SqlText.UndoubleDouble | pages/3_Validacao.py:53 | undoubling the quotes of a doubled text gives the text back |
| SqlText.DoubleUndouble | pages/3_Validacao.py:53 | a text that undoubles is the doubling of what it undoubles to |
| SqlText.Esc | pages/7_Exclusao.py:20-21 | `_esc` gives "" for a falsy value, raises for a truthy non-string, and otherwise doubles the quotes of the string |
| SqlText.SqlStrValue | pages/3_Validacao.py:50-54 | the value a `sql_str` literal stands for is NULL exactly for None and NaN |
| SqlText.ReadQuoted | pages/3_Validacao.py:53-54 | a quoted, quote-doubled text reads back, in standard SQL, as that text |
| SqlText.SqlStrRoundTrip | pages/3_Validacao.py:50-54 | in standard SQL, a `sql_str` literal reads back as NULL or as `str(v)` |
| SqlText.ReadIntText | pages/3_Validacao.py:87-88 | `str(i)` of an integer reads back as that integer |
| SqlText.ReadDecimalText | pages/3_Validacao.py:87-88 | the decimal repr of a float reads back as that float |
| SqlText.ReadFloatText | pages/3_Validacao.py:87-88 | `inf`, `-inf` and `nan` are not SQL literals: a statement holding one cannot be read |
| SqlText.SqlEscapeRoundTrip | pages/3_Validacao.py:84-89 | in standard SQL, a `_sql_escape` literal reads back as the value it escapes, except the non-finite floats, which do not read |
| SqlText.SfBodyDoubled | pages/3_Validacao.py:53 | Snowflake reads a quote-doubled text without backslashes back as itself |
| SqlText.SqlStrSnowflakeNoBackslash | pages/3_Validacao.py:50-54 | Snowflake reads a `sql_str` literal back as its value when `str(v)` has no backslash |
| SqlText.SqlEscapeSnowflakeNoBackslash | pages/3_Validacao.py:84-89 | Snowflake reads a `_sql_escape` literal back as the value the statement stores when `str(v)` has no backslash |
| SqlText.EscSnowflakeNoBackslash | pages/7_Exclusao.py:20-21 | Snowflake reads the quoted `_esc(v)` literal back as the text of `v` when that text has no backslash |
| SqlText.SqlStrTrailingBackslash | pages/3_Validacao.py:53-54 | Snowflake cannot read the `sql_str` literal of `a\` (shown under Findings) |
| SqlText.SfQuote | pages/3_Validacao.py:53 | the corrected quoting never shortens the text |
| SqlText.SqlStrSafe | pages/3_Validacao.py:50-54 | the corrected `sql_str` still writes NULL for None and NaN |
| SqlText.SqlStrSafeAgrees | pages/3_Validacao.py:50-54 | on text without backslashes the corrected `sql_str` writes what the page writes |
| SqlText.SfQuoteNoBackslash | pages/3_Validacao.py:53 | on text without backslashes the corrected quoting is the page's quote doubling |
| SqlText.SfBodyQuoted | pages/3_Validacao.py:53 | Snowflake reads the corrected quoting of any text back as that text |
| SqlText.SqlStrSafeRoundTrip | pages/3_Validacao.py:50-54 | Snowflake reads the corrected literal of any value back as NULL or `str(v)` (shown under Findings) |
| Store.AnyEqIff | pages/3_Validacao.py:228 | `col IN (v, ...)` holds exactly when the cell equals, in SQL, one of the listed values |
| Store.SelectedIff | pages/3_Validacao.py:342 | `WHERE ID IN (ids)` selects a row exactly when its ID equals, in SQL, one of the IDs |
| Store.NewRow | pages/3_Validacao.py:262-265 | an inserted row has exactly the target table's columns |
| Store.ExecFrame | pages/3_Validacao.py:345-350 | a statement that succeeds writes only its own table, keeps every table and keeps that table's columns |
| Store.RunAllSnoc | pages/3_Validacao.py:345-350 | running one more statement runs it on the state the others left, and an earlier failure stops the run |
| Store.RunAllAppend | pages/3_Validacao.py:345-350 | a run of two lists of statements is the second run on the state the first left |
| Store.RunAllOne | pages/7_Exclusao.py:171 | a run of one statement is that statement |
| Store.AssignGet | pages/3_Atualizacao.py:157 | after `SET`, a column the list names holds the value of its last assignment, and any other column keeps its value |
| Store.AssignAt | pages/3_Atualizacao.py:157 | the last assignment to a column decides its value |
| Store.FilterSplit | pages/3_Validacao.py:342 | a DELETE splits the rows into the matching and the remaining ones, losing and adding none |
| Store.FilterMember | pages/3_Validacao.py:342 | a row stays after a DELETE exactly when it was there and the condition does not hold for it |
| Store.FilterNone | pages/3_Validacao.py:342 | a DELETE whose condition holds for no row changes nothing |
| Store.FilterAppend | pages/3_Validacao.py:342 | filtering a concatenation filters each part |
| Store.MatchingIndex | pages/3_Validacao.py:262-265 | a selected row appears among the rows an `INSERT ... SELECT ... WHERE ID IN` copies |
| Store.UpdateRow | pages/3_Validacao.py:226-228 | an UPDATE rewrites exactly the selected rows, keeping their number |
| Store.CaseValueHit | pages/3_Validacao.py:217 | `CASE ID WHEN i THEN v ... END` gives the value of the first arm whose ID matches, and NULL when none does |
| Store.SelectedExtend | pages/3_Validacao.py:228 | one more ID selects the rows it matches as well |
| Store.Db.RunTransaction | pages/3_Validacao.py:345-353 | BEGIN, statements, COMMIT: it commits exactly when no statement fails, leaving the state the statements give; otherwise ROLLBACK leaves the tables as they were |
| Store.Db.RunEach | pages/5_Atualizacao.py:150-169 | each statement in its own autocommit: every statement is tried, and the failures are recorded one by one |
| Store.Db.RunUntilFailure | pages/8_Usuarios.py:117-137 | statements in autocommit inside one `try`: those before the first failure are kept, and the run stops at that failure |
| Store.RunAllStep | pages/3_Validacao.py:345-350 | extending a successful prefix by one statement runs that statement on the prefix's state |
| Store.RunAllPrefixErr | pages/3_Validacao.py:345-353 | a failure within a prefix fails the whole list |
| Store.Projected | pages/3_Validacao.py:262-265 | `INSERT ... SELECT cols` adds one row per selected source row |
| Store.Positional | pages/7_Exclusao.py:149-152 | `INSERT ... SELECT *` adds one row per selected source row, matching columns by position |
| Store.Updated | pages/3_Validacao.py:277-280 | an UPDATE neither adds nor drops rows |
| Store.EachOks | pages/5_Atualizacao.py:165-169 | one success flag per statement, true exactly when that statement ran without a fault or an error on the state before it |
| Store.RunAllTwo | pages/6_NaoAprovados.py:124-151 | two statements in a row: the second runs on the state the first left, and a first failure stops everything |
| Store.FilterSame | pages/3_Validacao.py:342 | two conditions that agree on every row delete the same rows |
| Store.UpdatedSame | pages/3_Validacao.py:277-280 | two conditions that agree on every row update the same rows alike |
| Store.RunAllAppendErr | pages/3_Validacao.py:345-353 | a failing prefix fails everything run after it |
| Store.ListedValueAt | pages/7_Exclusao.py:157-167 | a column named once in an INSERT's column list receives the value at its position |
| Store.Db.constructor | pages/3_Validacao.py:248-249 | the database starts with the given tables |
| Moves.MoveOutcome | pages/3_Validacao.py:342-353 | the insert, the stamping update and the delete commit together exactly when they fit the tables, and the result is the move: target rows copied and stamped, source rows of the IDs removed, other tables untouched |
| Moves.InsertStep | pages/3_Validacao.py:262-265 | the `INSERT ... SELECT ... WHERE ID IN` succeeds exactly when its columns fit both tables, and then appends the copies to the target |
| Moves.MoveConserves | pages/4_Validacao.py:378-414 | what the source loses is what the target gains, so no row is lost or made up |
| Moves.MoveEmptiesSource | pages/3_Validacao.py:342 | after the move the source keeps exactly its rows whose ID is not selected |
| Moves.MovedCells | pages/4_Validacao.py:375-383 | each copy has its source row's value in every copied column and NULL in the other target columns |
| Moves.ListedCopy | pages/3_Validacao.py:262-263 | a column named in the list receives the source row's value, any other column NULL |
| Moves.TargetStamped | pages/4_Validacao.py:384-389 | every target row of a selected ID carries the stamps, old rows of those IDs included, and the other target rows stay as they were |
| Moves.StampedRow | pages/4_Validacao.py:403-409 | a literal stamp is the value every target row of a selected ID holds afterwards |
| Moves.MoveIgnoresUnknownId | pages/3_Validacao.py:246 | an ID that no row in either table carries changes nothing about the move |
| Moves.IdsDisjointSym | pages/3_Validacao.py:342-350 | ID-disjointness of two tables is symmetric |
| Moves.SqlEqTransitive | pages/3_Validacao.py:265 | SQL equality of IDs is transitive |
| Moves.SqlEqSymmetric | pages/3_Validacao.py:265 | SQL equality of IDs is symmetric |
| Moves.MovedIds | pages/3_Validacao.py:262-265 | a copied row keeps the ID of a selected source row |
| Moves.UpdatedIds | pages/3_Validacao.py:276-280 | the stamping update leaves IDs as they were |
| Moves.TargetIds | pages/3_Validacao.py:262-280 | the target's IDs after the move are its old IDs and the moved ones |
| Moves.MoveKeepsDisjoint | pages/3_Validacao.py:342-350 | tables holding disjoint IDs before a move that copies ID still do after it |
| Filters.Apply | pages/1_Catalogo.py:57-68 | the filtered frame has no more rows than the frame |
| Filters.KeepRows | pages/1_Catalogo.py:68 | the shown rows are drawn from the frame |
| Filters.KeepIff | pages/1_Catalogo.py:57-66 | a row passes the mask exactly when every filled-in box accepts it |
| Filters.KeepRowsMember | pages/1_Catalogo.py:68 | a row is shown exactly when it is a row of the frame that the mask accepts |
| Filters.KeepRowsAll | pages/1_Catalogo.py:68 | when the mask accepts every row, the frame is shown unchanged |
| Filters.NoFilterKeepsAll | pages/4_Validacao.py:66-76 | with every box empty the whole frame is shown |
| Filters.CatalogoKeep | pages/1_Catalogo.py:57-66 | the catalogue mask: when filled in, the trimmed code equals the trimmed box, the product type equals the choice, and the keywords contain the text ignoring case |
| Filters.ThreeKeep | pages/1_Catalogo.py:57-66 | a three-box mask is the conjunction of its filled-in boxes |
| Filters.FourKeep | pages/4_Validacao.py:66-74 | a four-box mask is the conjunction of its filled-in boxes |
| Filters.ValidacaoKeep | pages/4_Validacao.py:66-74 | the validation mask: code, product type, input and keywords, each only when filled in |
| Filters.AtualizacaoKeep | pages/5_Atualizacao.py:50-60 | the approved-items update mask, whose type box compares TIPO_CODIGO |
| Filters.BlankCodeBox | pages/1_Catalogo.py:59-60 | a code box of blanks counts as filled in and then keeps only rows whose code is blank |
| Filters.AnyPyEqIff | pages/1_Catalogo.py:43 | a value is among a list exactly when it equals one of its elements |
| Filters.UniqueSpec | pages/1_Catalogo.py:43 | `dropna().unique()` gives non-missing cells of the column, pairwise unequal, and every non-missing cell equals one of them |
| Filters.UniqueOptsSorted | pages/4_Validacao.py:49-50 | the options are the sentinel, then the texts of the column's distinct non-missing cells in ascending order (two distinct cells with one text, such as 1 and "1", give that text twice) |
| Filters.OptionsFromCells | pages/1_Catalogo.py:42-43 | every option after the sentinel is the text of a non-missing cell |
| Filters.CellsAreOptions | pages/1_Catalogo.py:42-43 | every text cell of the column appears among the options |
| Filters.AfterLastOpen | pages/4_Validacao.py:206 | `split("(")[-1]` is no longer than the entry |
| Filters.AfterLastOpenOf | pages/4_Validacao.py:206 | the last piece of the split is exactly what follows the last `(` |
| Filters.ValidatorUsernameOfEntry | pages/4_Validacao.py:205-206 | `"Nome (user)"` yields `"user"` |
| Filters.ValidatorUsernamePlain | pages/4_Validacao.py:207-208 | an entry without a `(` or without a closing `)` is used as it is |
| Filters.SearchRows | pages/7_Exclusao.py:28-36 | the removal search returns no more rows than the table has |
| Filters.RemovalLoadSpec | pages/7_Exclusao.py:24-43 | the rows loaded are exactly the table's rows that the filled-in boxes accept, and blank boxes load the whole table |
| Filters.SearchMember | pages/7_Exclusao.py:28-36 | a row is found exactly when it is in the table and every applicable box accepts it |
| Filters.LikeAny | pages/7_Exclusao.py:27 | the pattern `%` matches every text |
| Filters.LikePrefix | pages/7_Exclusao.py:27 | a pattern `q%` with no wildcard in `q` matches exactly the texts that begin with `q` |
| Filters.LikeInfix | pages/7_Exclusao.py:27 | a pattern `%q%` with no wildcard in `q` matches exactly the texts that contain `q` |
| Filters.ILikePlainText | pages/7_Exclusao.py:27-29 | when the box holds no `%` or `_`, `ILIKE '%x%'` finds exactly the non-null cells whose text contains `x`, ignoring letter case |
| Filters.ILikeUnderscore | pages/7_Exclusao.py:27 | an `_` typed into the box matches any character: `AB` is found by `A_`, which it does not contain |
| Filters.SearchAll | pages/7_Exclusao.py:28-36 | blank boxes find every row |
| Columns.Present | pages/4_Catalogo.py:23 | the kept columns are exactly the wanted ones the frame has |
| Columns.Absent | pages/4_Catalogo.py:24 | the rest are exactly the frame's columns not kept |
| Columns.PreferredIsReorder | pages/3_Atualizacao.py:78 | the inline column order of the pending-items update page is the same as `reorder` |
| Columns.AbsentSame | pages/4_Catalogo.py:24 | excluding by two lists that agree on the frame's columns leaves the same rest |
| Columns.NoDupCount | pages/4_Catalogo.py:22-25 | a frame's column without repeats occurs once |
| Columns.PresentCount | pages/4_Catalogo.py:23 | a wanted column the frame has is kept as often as it is wanted |
| Columns.AbsentCount | pages/4_Catalogo.py:24 | a column outside the list is kept as often as the frame has it, one in the list never |
| Columns.ReorderPermutes | pages/4_Catalogo.py:22-25 | reordering a frame's columns neither loses nor repeats one |
| Columns.ReorderPrependPermutes | pages/3_Validacao.py:56-60 | with disjoint, repeat-free wanted and prepended lists, reordering is a permutation too |
| Columns.ReorderPrependRepeats | pages/3_Validacao.py:56-60 | a column both prepended and wanted comes out twice |
| Columns.ReorderShape | pages/5_Atualizacao.py:73-76 | the wanted columns present come first in the wanted order, and every column behind them is one the list does not name |
| Columns.RemoveFirst | pages/1_Catalogo.py:28 | `list.remove` shortens the list by one |
| Columns.RemoveFirstCount | pages/1_Catalogo.py:28 | `list.remove` removes exactly one occurrence |
| Columns.IndexOf | pages/1_Catalogo.py:29 | `list.index` gives the first position holding the element |
| Columns.ColumnList.constructor | pages/1_Catalogo.py:32 | `list(df.columns)` holds the frame's columns |
| Columns.ColumnList.MoveAfter | pages/1_Catalogo.py:26-30 | the list is rearranged in place as `move_after` does; when `index` raises the list has already lost the column |
| Columns.MoveAfterPlaces | pages/1_Catalogo.py:26-33 | with both columns present and distinct, the column lands right after the other, the rest keeps its order, and no column is lost |
| Columns.RemoveFirstRestore | pages/1_Catalogo.py:28 | removing a column that occurs once removes only that column |
| Columns.InsertAfter | pages/1_Catalogo.py:29-30 | inserting right after a column puts the new one there and adds nothing else |
| Columns.IndexOfPrefix | pages/1_Catalogo.py:29 | the first position holding the element is the position found |
| Columns.RemoveFirstAt | pages/1_Catalogo.py:28 | removing the first occurrence splices it out |
| Columns.MoveAfterAbsent | pages/1_Catalogo.py:27 | when either column is missing the list is unchanged |
| Columns.MoveAfterSelf | pages/1_Catalogo.py:28-29 | moving a column that occurs once after itself raises |
| Columns.LoadColumnsExist | pages/9_CriacaoInsumo.py:86-104 | only existing columns are selected; the wanted ones, in the wanted order, when at least one exists; the whole table otherwise |
| Columns.CollapseSpace | pages/9_CriacaoInsumo.py:240 | after the replacement no whitespace is left |
| Columns.SkipSpace | pages/9_CriacaoInsumo.py:240 | skipping a run of whitespace never lengthens the text |
| Columns.KeepHeaderChars | pages/9_CriacaoInsumo.py:241 | only capitals, digits and underscores are left |
| Columns.NormalizeHeaderNormal | pages/9_CriacaoInsumo.py:233-244 | a normalised header holds only capitals, digits and underscores, and normalising it again changes nothing |
| Columns.HeaderIsFixed | pages/9_CriacaoInsumo.py:233-244 | a header already made of those characters is left as it is |
| Columns.CollapseNoSpace | pages/9_CriacaoInsumo.py:240 | text without whitespace is left as it is |
| Columns.KeepAllHeader | pages/9_CriacaoInsumo.py:241 | text of allowed characters only is left as it is |
| Utils.StopIndex | src/utils.py:10 | `[^:;]+` runs up to the first `:` or `;`, or to the end |
| Utils.SemiIndex | src/utils.py:10 | `[^;]+` runs up to the first `;`, or to the end |
| Utils.MatchAt | src/utils.py:10 | a match at the start of the text has a non-empty key before its colon and a non-empty value after it |
| Utils.MatchAtShape | src/utils.py:10 | a match spans a key free of `:` and `;` up to its colon, and a value free of `;` up to a `;` or the end |
| Utils.Advance | src/utils.py:18 | every step of the scan moves on by at least one character and stays within the text |
| Utils.ScanMatch | src/utils.py:18 | a match found is the next one `finditer` yields, and the scan resumes after it |
| Utils.ScanSkip | src/utils.py:18 | without a match at a position the scan resumes one character on |
| Utils.FindIter | src/utils.py:18 | the loop over the text yields exactly the matches `finditer` yields, left to right |
| Utils.Keys | src/utils.py:29 | one key per match |
| Utils.Values | src/utils.py:19 | one value per match |
| Utils.KeysValuesSnoc | src/utils.py:17-19 | one more match adds its stripped key and value at the end |
| Utils.KeysValuesPrefix | src/utils.py:17-19 | one more match of a prefix adds its stripped key and value |
| Utils.KeysAt | src/utils.py:29 | the i-th key is the stripped first group of the i-th match |
| Utils.ValuesAt | src/utils.py:19 | the i-th value is the stripped second group of the i-th match |
| Utils.KeysValuesAt | src/utils.py:19-29 | the i-th key and value come from the i-th match |
| Utils.ExtrairValores | src/utils.py:13-20 | `None` or `""` gives `""`; otherwise the stripped values of the matches joined by single spaces |
| Utils.ExtrairChaves | src/utils.py:23-30 | `None` or `""` gives `""`; otherwise the stripped keys of the matches joined by single spaces |
| Utils.ValoresText | src/utils.py:13-16 | no specification gives `""` |
| Utils.StripSubstring | src/utils.py:19 | a stripped string is a contiguous piece of the original |
| Utils.StripKeepsNoSeparator | src/utils.py:10-19 | stripping keeps a text free of separators |
| Utils.StrippedIff | src/utils.py:19 | a text is its own strip exactly when neither end is whitespace |
| Utils.MatchesShape | src/utils.py:10-18 | every match's key holds neither `:` nor `;`, and its value no `;` |
| Utils.ExtractedShape | src/utils.py:13-30 | keys and values come one each from the same matches, stripped, keys without `:` or `;` and values without `;` |
| Utils.MatchesSemicolon | src/utils.py:10 | a `;` never starts a match |
| Utils.StopIndexAppend | src/utils.py:10 | a text free of separators followed by a separator stops there |
| Utils.SemiIndexAppend | src/utils.py:10 | a text free of `;` followed by `;` stops there |
| Utils.SegmentWithoutColon | src/utils.py:10 | a segment without `:` yields no match |
| Utils.StripLead | src/utils.py:10 | a trimmed text behind one blank strips back to itself |
| Utils.MatchesItem | src/utils.py:10-18 | one well-formed `K: V` item yields exactly one match |
| Utils.MatchesFromSlices | src/utils.py:18 | a match at the start is followed by the matches of what comes after it |
| Utils.MatchAtItem | src/utils.py:10 | the match of a well-formed item ends at its `;` |
| Utils.ItemStop | src/utils.py:10 | the key of a well-formed item ends at its colon |
| Utils.ItemSemi | src/utils.py:10 | the value of a well-formed item ends at the next `;` |
| Utils.FormatSpecCons | src/utils.py:14 | `"K1: V1; K2: V2"` is the first item, `"; "` and the rest |
| Utils.FormatSpecOne | src/utils.py:14 | the text of one item is that item |
| Utils.RoundTripOne | src/utils.py:13-30 | scanning one well-formed item gives back its key and value |
| Utils.RoundTripCons | src/utils.py:13-30 | scanning a longer well-formed text gives back its first item and then the rest |
| Utils.ConsMatches | src/utils.py:18 | the matches of a well-formed text are its first item's and then the rest's |
| Utils.FormatRoundTrip | src/utils.py:13-30 | scanning a well-formed `"K1: V1; K2: V2"` text gives back exactly its keys and values |
| Utils.WellFormedStripped | src/utils.py:19-29 | well-formed keys and values strip to themselves |
| Utils.ExtrairWellFormed | src/utils.py:14-24 | the docstrings' claim: a well-formed text yields its values, and its keys, joined by spaces |
| Utils.MissingKeysAppend | src/utils.py:35-39 | one more dict item adds its key exactly when its value is missing |
| Utils.CamposObrigatoriosOk | src/utils.py:33-40 | the loop lists, in dict order, the keys whose values are missing, and `ok` holds exactly when none is |
| Utils.MissingKeysMember | src/utils.py:35-39 | a key is listed exactly when its value is `None`, `""`, or a numeric zero when zeros are invalid |
| Utils.MissingKeysOnlyFrom | src/utils.py:35 | only keys of the dict are listed |
| Utils.ZerosAllowed | src/utils.py:38 | a numeric zero is listed exactly when zeros are invalid |
| Validacao.FirstWithId | pages/3_Validacao.py:288 | the position found is within the frame or just past its end |
| Validacao.FirstWithIdSpec | pages/3_Validacao.py:288-290 | `row.iloc[0]` is the first row of that ID: the row found has the ID and no earlier one does |
| Validacao.CodigoOf | pages/3_Validacao.py:286-290 | the lookup raises, and the log is skipped, exactly when the frame has no ID column |
| Validacao.CodigoOfSpec | pages/3_Validacao.py:287-290 | no item of the ID, or no code column, logs no code; a logged code is the non-null CODIGO_PRODUTO of an item of that ID |
| Validacao.DecisionLogsEach | pages/3_Validacao.py:285-301 | one log call per ID, in order, from the pending store to the decision's store, with the note; none when the frame has no ID column |
| Validacao.CollectLogs | pages/3_Validacao.py:324-340 | the loop over the IDs makes exactly the log calls described, each failure swallowed |
| Validacao.ApplyDecision | pages/3_Validacao.py:237-354 | an empty ID list does nothing; a missing store raises before any write; otherwise the logs are written, then BEGIN ... COMMIT commits exactly when no statement fails, and a failure rolls every store back |
| Validacao.DecisionMoves | pages/3_Validacao.py:256-350 | the transaction succeeds exactly when the stores fit it, and its result is the move from the pending store to the decision's store |
| Validacao.StampsFit | pages/3_Validacao.py:268-281 | an approval stamps user and time only where the approved store has those columns, and skips the UPDATE when it has neither; a rejection always stamps user, time and reason |
| Validacao.DecisionColsShared | pages/3_Validacao.py:258 | a column is copied exactly when both the target and the pending store have it |
| Validacao.StampsKeepId | pages/3_Validacao.py:268-320 | the stamps never write ID |
| Validacao.RejectionStamped | pages/3_Validacao.py:314-320 | after a rejection every correction row of a selected ID carries the user's name, the time and the reason |
| Validacao.ApprovalStamped | pages/3_Validacao.py:268-280 | after an approval every approved row of a selected ID carries the user's name and the time, where the store has those columns |
| Validacao.DecisionConserves | pages/3_Validacao.py:342-350 | no selected row stays pending, the decision's store gains as many rows as the pending store loses, and the third store is unchanged |
| Validacao.DecisionIgnoresUnknownId | pages/3_Validacao.py:246 | an ID that neither store carries changes nothing |
| Validacao.DecisionKeepsDisjoint | pages/3_Validacao.py:342-350 | items that sit in exactly one store before a decision still do after it |
| Validacao.BuildDesc | pages/3_Validacao.py:91-99 | a blank or null DESCRICAO with ESPECIFICACAO present is rebuilt from the specification; otherwise DESCRICAO is kept, with None as `""`; it raises only on a non-text truthy specification |
| Validacao.RecalcDescricao | pages/3_Validacao.py:117-137 | DESCRICAO is added when missing, and then written exactly on the rows where it was blank or null, unless a row raised |
| Validacao.AddDescColumn | pages/3_Validacao.py:124-125 | a missing DESCRICAO column is added as `""` on every row |
| Validacao.NewDescs | pages/3_Validacao.py:127-133 | the apply pass gives each row its rebuilt description, or stops at the first row that raises |
| Validacao.RecalcOnlyBlank | pages/3_Validacao.py:134-135 | only DESCRICAO changes, and only on rows where it was blank or null |
| Validacao.RecalcFromSpec | pages/3_Validacao.py:97-98 | a blank description over a well-formed `"K1: V1; K2: V2"` specification becomes `"V1 V2"` |
| Validacao.RecalcIdempotent | pages/3_Validacao.py:134-135 | rebuilding the descriptions twice gives the same as once |
| ValidacaoAudit.AuditCodeSpec | pages/4_Validacao.py:358-359 | the lookup raises exactly when the frame has no ID column, or has an item of the ID but no code column; a missing item gives NULL; a code is the text of an item's non-null code |
| ValidacaoAudit.AuditValues | pages/4_Validacao.py:356-360 | the loop builds one VALUES row per ID, in order, and an exception ends it |
| ValidacaoAudit.AuditRowsStep | pages/4_Validacao.py:357-360 | one more ID appends its row, or raises |
| ValidacaoAudit.AuditRowsRaise | pages/4_Validacao.py:357-360 | once a lookup raises, the whole list raises |
| ValidacaoAudit.AuditRowsNone | pages/4_Validacao.py:356-360 | the list raises exactly when the lookup of some ID raises |
| ValidacaoAudit.AuditRowAt | pages/4_Validacao.py:360 | the i-th audit row is built from the i-th ID, its code, the decision, the note and the user |
| ValidacaoAudit.ApplyAuditedDecision | pages/4_Validacao.py:340-427 | an empty ID list does nothing; a failing lookup or a missing store raises before BEGIN; otherwise audit INSERT, move INSERT, UPDATE and DELETE commit together exactly when none fails, and a failure rolls back all of them, the audit row included |
| ValidacaoAudit.AuditStampsFit | pages/4_Validacao.py:384-409 | the UPDATE always runs, and fits the store exactly when it has NOME_VALIDADOR and APROVADO_POR, or REPROVADO_POR and MOTIVO for a rejection |
| ValidacaoAudit.AuditInsertStep | pages/4_Validacao.py:361-365 | the audit INSERT succeeds exactly when the audit table has its columns and the rows fit, and then it appends those rows |
| ValidacaoAudit.AuditedOutcome | pages/4_Validacao.py:417-423 | the transaction succeeds exactly when the audit table and both stores fit it, and its result is the audit INSERT followed by the move |
| ValidacaoAudit.AuditedSplits | pages/4_Validacao.py:417-423 | a committed decision appends the audit rows, moves the items between the two stores, and keeps every other table |
| ValidacaoAudit.AuditCells | pages/4_Validacao.py:362-364 | an inserted audit row holds each listed value under its own column |
| ValidacaoAudit.AuditRowsStored | pages/4_Validacao.py:356-364 | after a commit the audit table has, after its old rows, one row per ID in order, with that ID, its code, the decision and the validating user |
| ValidacaoAudit.AuditedStamped | pages/4_Validacao.py:384-409 | after an approval every approved row of a selected ID carries the validator's login and name; after a rejection every correction row does, with the reason as well |
| Insumo.PairsOfMember | pages/9_CriacaoInsumo.py:51-55 | an edited row contributes one entry for each before-row of its ID against which its cleaned INSUMO changed and is non-empty |
| Insumo.ChangedMember | pages/9_CriacaoInsumo.py:45-55 | an entry is in `changed` exactly when some edited row and some before-row share the ID and the cleaned INSUMO changed to a non-empty value |
| Insumo.ChangedSound | pages/9_CriacaoInsumo.py:51-55 | every changed entry comes from such a pair of rows |
| Insumo.ChangedComplete | pages/9_CriacaoInsumo.py:51-55 | every such pair of rows gives a changed entry |
| Insumo.Ints | pages/9_CriacaoInsumo.py:62 | `[int(x) for x in ...]` parses every ID in order, or raises at one that does not parse |
| Insumo.BatchPlan | pages/9_CriacaoInsumo.py:42-83 | an empty frame or one without ID or INSUMO writes nothing; a planned write returns the number of changed entries, which is positive |
| Insumo.PersistInsumoBatch | pages/9_CriacaoInsumo.py:37-83 | no change returns 0 unwritten; an unparsable ID raises before writing; otherwise one UPDATE runs outside a transaction and returns the count when it succeeds |
| Insumo.BatchPlanShape | pages/3_Validacao.py:209-230 | a planned write is one UPDATE of the table over the parsed IDs of the changed entries |
| Insumo.BatchSetsHead | pages/3_Validacao.py:217 | INSUMO is assigned first and nowhere else in the SET list |
| Insumo.BatchSetsData | pages/3_Validacao.py:219-220 | with DATA_ATUALIZACAO in the table, it is stamped second and nowhere else |
| Insumo.BatchAssignInsumo | pages/3_Validacao.py:212-217 | a selected row gets the INSUMO of the first changed entry of its ID |
| Insumo.DataColumnFound | pages/9_CriacaoInsumo.py:60 | a column named DATA_ATUALIZACAO is found by the upper-cased schema lookup |
| Insumo.BatchAssignStamp | pages/9_CriacaoInsumo.py:71-72 | DATA_ATUALIZACAO is set to the current time where the table has it |
| Insumo.BatchUpdatesChanged | pages/3_Validacao.py:184-231 | the UPDATE keeps rows of IDs that did not change, gives every changed ID the INSUMO of its first changed entry, and stamps those rows with the time |
| Insumo.PendingRows | pages/9_CriacaoInsumo.py:127-133 | the pending list is an error exactly when the frame has no INSUMO column |
| Insumo.PendingMember | pages/9_CriacaoInsumo.py:131-133 | a row is listed exactly when its INSUMO is null or blank, in the table's order |
| Insumo.UsableMember | pages/9_CriacaoInsumo.py:281-286 | an uploaded entry is kept exactly when its ID parses as a number and its INSUMO is non-empty |
| Insumo.KeepLastMember | pages/9_CriacaoInsumo.py:289 | deduplication keeps exactly the last entry of each ID, in the original order |
| Insumo.KeepLastSub | pages/9_CriacaoInsumo.py:289 | deduplication only drops entries |
| Insumo.KeepLastUnique | pages/9_CriacaoInsumo.py:289 | after deduplication no two entries share an ID |
| Insumo.CleanUploadSpec | pages/9_CriacaoInsumo.py:268-289 | the cleaned upload holds exactly the last usable entry of each ID, each ID once |
| Insumo.SplitPartition | pages/9_CriacaoInsumo.py:292-294 | the pending and the ignored parts together hold every cleaned row once |
| Insumo.SplitMember | pages/9_CriacaoInsumo.py:293-294 | one part holds exactly the rows of pending IDs, the other the rest |
| Insumo.UploadMapKeys | pages/9_CriacaoInsumo.py:309 | `dict(zip(...))` has exactly the entries' IDs as keys |
| Insumo.UploadMapValues | pages/9_CriacaoInsumo.py:309 | with one entry per ID the map gives each ID its entry's INSUMO |
| Insumo.BeforeApply | pages/9_CriacaoInsumo.py:305-306 | one before-row per pending row |
| Insumo.AfterApply | pages/9_CriacaoInsumo.py:308-313 | one after-row per before-row |
| Insumo.AfterApplySpec | pages/9_CriacaoInsumo.py:310-313 | a pending row keeps its ID and takes the uploaded INSUMO of that ID, or keeps its own |
| Atualizacao.KeyColumn | pages/5_Atualizacao.py:108-111 | the key is ID when the frame has it, else CODIGO_PRODUTO, and there is none exactly when the frame has neither |
| Atualizacao.KeyEqSymmetric | pages/5_Atualizacao.py:115 | matching index labels is symmetric |
| Atualizacao.WithKey | pages/5_Atualizacao.py:119-120 | `.loc[k]` returns no more rows than the frame has |
| Atualizacao.WithKeyMember | pages/5_Atualizacao.py:119-120 | `.loc[k]` returns exactly the rows under label `k` |
| Atualizacao.DistinctKeys | pages/5_Atualizacao.py:115 | an index has no more distinct labels than rows |
| Atualizacao.InOther | pages/5_Atualizacao.py:115 | the intersection is no longer than the first index |
| Atualizacao.Comparable | pages/5_Atualizacao.py:122-124 | the diff looks at exactly the edited columns that are neither locked nor the key |
| Atualizacao.DiffCols | pages/5_Atualizacao.py:121-129 | a column is reported exactly when it is comparable and its two cells differ, not both missing and not equal |
| Atualizacao.ComparableNoDup | pages/5_Atualizacao.py:122 | the comparable columns are each named once |
| Atualizacao.DiffColsNoDup | pages/5_Atualizacao.py:129 | each changed column is reported once |
| Atualizacao.NoDupCons | pages/5_Atualizacao.py:129 | adding a new column to a list without repeats keeps it without repeats |
| Atualizacao.CollectSnoc | pages/5_Atualizacao.py:118-131 | the loop's state after one more key is one more step |
| Atualizacao.CollectFails | pages/5_Atualizacao.py:118-131 | the loop raises exactly when it must compare an ambiguous key |
| Atualizacao.CollectSound | pages/5_Atualizacao.py:130-131 | every recorded change is the verdict of one of the keys |
| Atualizacao.CollectComplete | pages/5_Atualizacao.py:130-131 | every changed verdict is recorded |
| Atualizacao.CollectErrSticky | pages/5_Atualizacao.py:118-131 | once raised, the loop stays raised |
| Atualizacao.ChangesOfFails | pages/5_Atualizacao.py:118-127 | the diff raises exactly when a key with more than one row meets a column to compare |
| Atualizacao.ChangesOfSound | pages/5_Atualizacao.py:118-131 | every change found belongs to a common key, with the columns whose cells differ |
| Atualizacao.ChangesOfComplete | pages/5_Atualizacao.py:118-131 | every unambiguous key with a difference has its change |
| Atualizacao.ChangeColsComparable | pages/5_Atualizacao.py:123-124 | a locked column, or the key, is never reported as changed |
| Atualizacao.DiffColumns | pages/5_Atualizacao.py:121-129 | the column loop computes the differing columns |
| Atualizacao.JudgeKey | pages/5_Atualizacao.py:119-131 | the loop body gives the key's verdict |
| Atualizacao.DetectChanges | pages/3_Atualizacao.py:106-129 | the key loop gives the changes, or the exception of an ambiguous key |
| Atualizacao.CollectChanges | pages/3_Atualizacao.py:115-127 | the loop over the common keys gives, in key order, each key whose compared columns differ together with those columns, or the exception of the first ambiguous key |
| Atualizacao.SetLits | pages/5_Atualizacao.py:139-153 | one `c = sql_escape(v)` per changed column, in order, or none when a value has no SQL literal |
| Atualizacao.RowUpdateRuns | pages/5_Atualizacao.py:161-166 | an UPDATE of a change runs exactly when every literal parses and the table has the key, the changed columns and the stamps |
| Atualizacao.SetsFitAppend | pages/5_Atualizacao.py:161 | a joined SET list fits exactly when both parts fit |
| Atualizacao.SetLitsFit | pages/5_Atualizacao.py:152-153 | the changed columns' SET list fits exactly when the table has those columns |
| Atualizacao.RowUpdateWrites | pages/5_Atualizacao.py:150-163 | a successful UPDATE rewrites only the rows whose key equals the change's, each with the edited value of every changed column |
| Atualizacao.FailedKeys | pages/5_Atualizacao.py:168-169 | no more errors than changes |
| Atualizacao.CountTrue | pages/5_Atualizacao.py:167 | no more updates than statements |
| Atualizacao.SavedAccounts | pages/5_Atualizacao.py:165-175 | every change is counted as updated or reported as an error, and there are no errors exactly when every UPDATE succeeded |
| Atualizacao.SaveEdits | pages/5_Atualizacao.py:107-175 | no key column stops; an ambiguous key raises; no change stops; otherwise every UPDATE runs on its own and the counts match the successes and failures |
| Atualizacao.Tally | pages/5_Atualizacao.py:165-169 | the counter and the error list record the outcome of each statement |
| Atualizacao.LockedNeverChanged | pages/5_Atualizacao.py:86-90 | a column of the locked list is never reported as changed |
| Atualizacao.PendingLocksDates | pages/3_Atualizacao.py:85 | on the pending-table page ID, DATA_CADASTRO and DATA_ATUALIZACAO are never reported as changed |
| Atualizacao.ApprovedStampsShape | pages/5_Atualizacao.py:155-159 | the approved-table stamps write only columns the table has: the time, and the user exactly when one is known |
| Atualizacao.StampsAfterChanges | pages/5_Atualizacao.py:150-160 | a stamp never overwrites a changed column |
| Atualizacao.ApprovedStampsLocked | pages/5_Atualizacao.py:86-89 | the approved-table stamps name only locked columns |
| Atualizacao.PendingStampsLocked | pages/3_Atualizacao.py:85 | the pending-table stamp names only a locked column |
| NaoAprovados.LockedNotEditable | pages/6_NaoAprovados.py:30-34 | no column the editor locks can be written through the allow-list |
| NaoAprovados.EditableAllowOk | pages/6_NaoAprovados.py:30-34 | the allow-list names neither ID nor DATA_ATUALIZACAO |
| NaoAprovados.EditedMapFails | pages/6_NaoAprovados.py:86 | building the map raises exactly when some row's ID does not read as an integer |
| NaoAprovados.EditedMapKeys | pages/6_NaoAprovados.py:86 | otherwise its keys are exactly the selected IDs that some row carries |
| Cells.CarriesIdSnoc | pages/6_NaoAprovados.py:86 | a list carries an ID exactly when its front or its last row does |
| NaoAprovados.EditedMapLast | pages/6_NaoAprovados.py:86 | each ID maps to the last row that carries it |
| NaoAprovados.LastWithExtend | pages/6_NaoAprovados.py:86 | a row that does not carry the ID does not change which row last carries it |
| NaoAprovados.EditStatements | pages/6_NaoAprovados.py:108-120 | one UPDATE per selected ID, in order, writing its allowed columns and the refresh stamp; none when the frame has no allowed column |
| NaoAprovados.EditedRows | pages/6_NaoAprovados.py:108-120 | the loop keeps the number of COR rows |
| NaoAprovados.EditSetsShape | pages/6_NaoAprovados.py:111-118 | a SET list writes exactly the allowed columns the frame has and DATA_ATUALIZACAO, each with its `sql_str` value or the time |
| NaoAprovados.EditSetsFit | pages/6_NaoAprovados.py:114-118 | an UPDATE fits COR exactly when COR has DATA_ATUALIZACAO and every column it writes |
| NaoAprovados.CoversPrefix | pages/6_NaoAprovados.py:96 | every prefix of a covered ID list is covered |
| NaoAprovados.EditsRun | pages/6_NaoAprovados.py:107-120 | the UPDATE loop succeeds exactly when its statements fit COR, or there are none, and then COR holds the edited rows and every other table is unchanged |
| NaoAprovados.SqlEqInt | pages/6_NaoAprovados.py:118 | `WHERE ID = x` holds for a numeric ID of exactly one integer |
| NaoAprovados.EditedRowsCells | pages/6_NaoAprovados.py:107-120 | after the loop every COR cell is the edited value of its ID's row, or the stamp, where the ID is selected, and a row of no selected ID is unchanged |
| NaoAprovados.EditStep | pages/6_NaoAprovados.py:108-120 | one more UPDATE of the loop keeps every row's cells as the edit describes |
| NaoAprovados.AssignUniform | pages/6_NaoAprovados.py:111-118 | an edit's SET list writes each column it names with that column's edit value |
| NaoAprovados.MetaStampsShape | pages/6_NaoAprovados.py:133-147 | the stamps clear only DATA_ATUALIZACAO and USUARIO_ATUALIZACAO, each where MAIN has it |
| NaoAprovados.ResendOutcome | pages/6_NaoAprovados.py:104-153 | the transaction succeeds exactly when its statements fit both stores, and it then moves the edited COR rows to MAIN |
| NaoAprovados.SelectedById | pages/6_NaoAprovados.py:127 | whether a row is selected depends on its ID cell alone |
| NaoAprovados.EditKeepsId | pages/6_NaoAprovados.py:108-120 | the loop keeps every COR row's ID, and so its selection |
| NaoAprovados.ResendEmptiesCor | pages/6_NaoAprovados.py:151 | after a commit COR keeps exactly its rows of IDs that were not resent |
| NaoAprovados.ResendCarriesEdits | pages/6_NaoAprovados.py:107-129 | every resent COR row has a copy in MAIN carrying its edited values in every common column except the two cleared stamps |
| NaoAprovados.ResendCopy | pages/6_NaoAprovados.py:122-129 | the copy of a resent COR row is among MAIN's rows |
| NaoAprovados.CopyCell | pages/6_NaoAprovados.py:122-129 | one cell of that copy is the edited cell |
| NaoAprovados.CopyIndex | pages/6_NaoAprovados.py:122-129 | the copies follow the target's old rows |
| NaoAprovados.CopyAfterStamps | pages/6_NaoAprovados.py:122-147 | a copy keeps its source value in a copied column the stamps do not set |
| NaoAprovados.ResendClearsStamps | pages/6_NaoAprovados.py:133-147 | after a commit every MAIN row of a resent ID has its update stamps cleared, where MAIN has them |
| NaoAprovados.ResendFrame | pages/6_NaoAprovados.py:104-153 | a commit writes only COR and MAIN, and no row is lost or made up between them |
| NaoAprovados.ResendToValidacao | pages/6_NaoAprovados.py:75-157 | an empty ID list does nothing; an unreadable ID, an ID with no edited row or a missing store raises before BEGIN; otherwise the edits, the copy, the stamp reset and the delete commit together or roll back together |
| NaoAprovados.ResendTransaction | pages/6_NaoAprovados.py:104-157 | BEGIN, the edit loop, the move, COMMIT; the first exception rolls everything back, the COR edits included |
| Exclusao.TickedIds | pages/7_Exclusao.py:104 | `dropna()` leaves no missing ID, and no more IDs than rows |
| Exclusao.TickedIdsMember | pages/7_Exclusao.py:104 | the list holds the IDs of exactly the ticked rows |
| Exclusao.UpperKeepsSpace | pages/7_Exclusao.py:119 | upper-casing keeps each character's being a blank |
| Exclusao.CanRunNormalised | pages/7_Exclusao.py:119 | the confirmation is read only through its trimmed, upper-cased text |
| Exclusao.ValidIds | pages/7_Exclusao.py:122-127 | no more IDs are kept than values selected |
| Exclusao.ParseIds | pages/7_Exclusao.py:122-127 | the `try: ids.append(int(x))` loop keeps, in order, the values `int` accepts |
| Exclusao.ValidIdsMember | pages/7_Exclusao.py:122-127 | an ID is kept exactly when some selected value converts to it |
| Exclusao.ValidIdsEmpty | pages/7_Exclusao.py:129-131 | nothing is left exactly when no selected value converts |
| Exclusao.EscLiteral | pages/7_Exclusao.py:20-21 | in standard SQL, the quoted `_esc(v)` literal reads back as the text of `v` |
| Exclusao.ReasonLiteral | pages/7_Exclusao.py:163 | `_esc` keeps a reason as it is |
| Exclusao.LogSelectFits | pages/7_Exclusao.py:157-167 | the log SELECT reads only columns the catalogue has |
| Exclusao.RemovalOutcome | pages/7_Exclusao.py:145-173 | the three statements succeed exactly when the tables fit them, and then archive, log and delete the selected rows |
| Exclusao.RemovalEmptiesCatalog | pages/7_Exclusao.py:171 | the catalogue keeps exactly its unselected rows |
| Exclusao.RemovalFrame | pages/7_Exclusao.py:145-173 | only the catalogue, the removed table and the log change; the removed table gains one row and the log one entry per deleted row |
| Exclusao.RemovalArchives | pages/7_Exclusao.py:149-152 | a selected row has a copy among the removed rows, its cells in the columns at the same positions |
| Exclusao.ArchiveCopy | pages/7_Exclusao.py:149-152 | the copy of a selected row among the archived rows |
| Exclusao.RemovalLogs | pages/7_Exclusao.py:157-167 | every deleted catalogue row is logged with its ID, code, name, the reason, the time and the user |
| Exclusao.LogSelectValues | pages/7_Exclusao.py:159-166 | the log SELECT yields the log values of a catalogue row |
| Exclusao.LogColsDistinct | pages/7_Exclusao.py:158 | the log INSERT names each column once |
| Exclusao.LogRowEntry | pages/7_Exclusao.py:157-167 | an inserted log row holds each value under its column |
| Exclusao.LogCopy | pages/7_Exclusao.py:157-167 | the log row of a selected catalogue row |
| Exclusao.RemoveSelected | pages/7_Exclusao.py:100-187 | a disabled button or no valid ID does nothing; otherwise BEGIN, archive, log, delete and COMMIT happen together, or ROLLBACK leaves every table as it was |
| Exclusao.NotLaterTransitive | pages/7_Exclusao.py:207 | the log order is transitive |
| Exclusao.LaterAsymmetric | pages/7_Exclusao.py:207 | the log order is asymmetric |
| Exclusao.LatestLogSpec | pages/7_Exclusao.py:207-219 | the chosen log row has the code and none of that code is more recent; there is none exactly when no log row has the code |
| Exclusao.Listing | pages/7_Exclusao.py:199-235 | the listing fails exactly when a table lacks the columns it reads; it keeps every removed row and its columns, plus the three log columns |
| Exclusao.ListingRow | pages/7_Exclusao.py:221-235 | each listed row is the removed row with the reason, time and user of its code's latest log row, or NULLs without one |
| Cadastro.BlankRequired | pages/2_Cadastro.py:199 | a required column is listed exactly when its text is blank once trimmed, and only required columns are listed |
| Cadastro.RowMissing | pages/2_Cadastro.py:199-206 | the problems of one line are its blank required columns followed by the three numeric markers |
| Cadastro.CheckNumber | pages/2_Cadastro.py:201-206 | a numeric column gets its "(inválido)" marker exactly when it is present, not blank and does not parse |
| Cadastro.MissingList | pages/2_Cadastro.py:196-208 | one entry per line, each the comma-joined list of that line's problems |
| Cadastro.StartColumn | pages/2_Cadastro.py:210 | the new explanation column holds, line by line, the comma-joined problems of that line |
| Cadastro.FileDupIff | pages/2_Cadastro.py:187 | a line is a duplicate in the file exactly when its code is not blank and some other line has the same code (`keep=False`) |
| Cadastro.BlankCodeNeverFlagged | pages/2_Cadastro.py:187-194 | a line with a blank code is never flagged as a duplicate, in the file or in either table, since only non-blank codes are looked up (line 190) |
| Cadastro.AppendReason | pages/2_Cadastro.py:18-26 | the explanation column becomes, on the masked lines, the old text with ", reason" added (or the reason alone where it was blank), and stays unchanged elsewhere |
| Cadastro.ReasonedJoin | pages/2_Cadastro.py:21-25 | appending a reason to a joined list of clean parts is the same as joining the list with the reason added at the end |
| Cadastro.JoinTidy | pages/2_Cadastro.py:208 | joining a non-empty list of clean, non-blank parts gives a clean, non-blank text |
| Cadastro.RequiredTidy | pages/2_Cadastro.py:178-182 | every required column name is clean and non-blank |
| Cadastro.PageMessagesTidy | pages/2_Cadastro.py:212-216 | the three duplicate messages are clean and non-blank |
| Cadastro.PageChecksTidy | pages/2_Cadastro.py:178-216 | the page's own checks (required columns and messages) are all clean |
| Cadastro.MissingTidy | pages/2_Cadastro.py:199-206 | with clean column names and messages, every problem listed for a line is clean |
| Cadastro.AppendedJoined | pages/2_Cadastro.py:211-216 | one append step on the joined column equals joining after adding the reason to the masked lines' lists |
| Cadastro.Stage0Tidy | pages/2_Cadastro.py:208-211 | every reason in the first stage is clean |
| Cadastro.StagesExplain | pages/2_Cadastro.py:211-216 | the three append steps, in the page's order, produce for every line its problems, then the file duplicate, then APROVADOS, then PENDENTES |
| Cadastro.ExplainedByStages | pages/2_Cadastro.py:210-216 | the column as first filled and then extended by the three appends, joined, is the explanation of every line |
| Cadastro.AppendStage | pages/2_Cadastro.py:212-216 | one append on the array keeps it equal to the joined reason lists, now extended on the masked lines, and keeps them clean |
| Cadastro.Preview | pages/2_Cadastro.py:196-216 | the preview builds a new explanation column equal to the explanation function of the sheet, the found codes and the checks |
| Cadastro.ReasonsEmptyIff | pages/2_Cadastro.py:199-216 | a line has no reason exactly when it misses nothing, is not a duplicate in the file and its code is in neither table |
| Cadastro.ReasonsTidy | pages/2_Cadastro.py:199-216 | every reason given for a line is clean |
| Cadastro.JoinBlankIff | pages/2_Cadastro.py:218 | a join of clean parts is blank once trimmed exactly when there is no part |
| Cadastro.ValidIff | pages/2_Cadastro.py:218-227 | a line is valid (its explanation is blank once trimmed) exactly when it misses nothing, is not a duplicate in the file and its code is in neither table |
| Cadastro.ReasonOrder | pages/2_Cadastro.py:212-216 | a complete line flagged by all three checks reads "duplicate in file, in APROVADOS, in PENDENTES", in that order |
| Cadastro.AllFlagged | pages/2_Cadastro.py:212-216 | a complete line flagged by all three checks has exactly the three reasons, file duplicate first, then APROVADOS, then PENDENTES |
| Cadastro.SplitMember | pages/2_Cadastro.py:227-229 | a line index is in the valid (or error) part exactly when the line's flag says so |
| Cadastro.SplitIncreasing | pages/2_Cadastro.py:227-229 | each part keeps the sheet's order and holds only indices of the sheet |
| Cadastro.SplitSizes | pages/2_Cadastro.py:227-229 | the valid and the error part together hold as many lines as the sheet |
| Cadastro.CanUploadIff | pages/2_Cadastro.py:254 | the upload button is enabled exactly when some line is valid |
| Cadastro.ErrorSheetLines | pages/2_Cadastro.py:237-238 | as written: one `__LINHA_EXCEL__` number per error line, counted from the error part's own positions |
| Cadastro.ErrorSheetLinesShifted | pages/2_Cadastro.py:237-238 | on a sheet whose first line is valid and second has an error, the error is labelled line 2 though it sits on sheet line 3 |
| Cadastro.ErrorLines | pages/2_Cadastro.py:237-238 | corrected: one number per error line, counted from the line's original position |
| Cadastro.ErrorLinesPointBack | pages/2_Cadastro.py:237-238 | every corrected number, minus the two header/base lines, points back at a line that has an error |
| Cadastro.UploadValid | pages/2_Cadastro.py:256-323 | inserted plus failed equals the valid lines; all were inserted exactly when every insert succeeded; the failures are the failed-lines function |
| Cadastro.FailedLinesSound | pages/2_Cadastro.py:317-321 | every reported failure is some valid line whose insert failed, shown as its sheet line (index + 2) |
| Cadastro.FailedLinesComplete | pages/2_Cadastro.py:317-321 | every valid line whose insert failed is reported, as its sheet line |
| Cadastro.SubmitForm | pages/2_Cadastro.py:84-126 | the form is refused with the missing list exactly when something is missing; otherwise the trimmed code is looked up, an approved or pending code is refused and only an unknown code is inserted |
| Usuarios.Compare | pages/8_Usuarios.py:98 | the compared columns are exactly ROLE and NAME among those the grid has |
| Usuarios.ToDeleteIff | pages/8_Usuarios.py:77-82 | a username is on the delete list exactly when some row with that username (not missing) has its box equal to True |
| Usuarios.MatchesIff | pages/8_Usuarios.py:100-105 | an original row is matched to an edited row exactly when it is an original row whose USERNAME joins with the edited one |
| Usuarios.MergeOne | pages/8_Usuarios.py:100-105 | a left merge never drops an edited row: each gives at least one merged row |
| Usuarios.MergeOneIff | pages/8_Usuarios.py:100-105 | the merged rows of one edited row pair it with each joining original row, or with nothing when no original row joins |
| Usuarios.MergeSound | pages/8_Usuarios.py:100-105 | every merged row pairs an edited row with a joining original row, or with nothing only when no original row joins |
| Usuarios.MergeComplete | pages/8_Usuarios.py:100-105 | every edited row appears paired with each joining original row, and with nothing when none joins |
| Usuarios.StrNe | pages/8_Usuarios.py:109 | the string comparison is missing exactly when either side is missing, and true exactly when both are present and their texts differ |
| Usuarios.ChangedIff | pages/8_Usuarios.py:107-111 | as written: a merged row is selected exactly when some compared column holds text on both sides and the texts differ |
| Usuarios.NameFromNullMissed | pages/8_Usuarios.py:107-111 | for a user whose NAME goes from null to "Ana" the mask is not true, so the edit is not saved, although the intended test sees a change |
| Usuarios.ChangedIsIntended | pages/8_Usuarios.py:107-111 | corrected: every row the page selects is also changed in the intended sense |
| Usuarios.ChangedAgreesWithoutNa | pages/8_Usuarios.py:107-111 | corrected: with no missing value in the compared columns, the page's test and the intended one agree |
| Usuarios.ChangedPairsIff | pages/8_Usuarios.py:111 | the changed rows are exactly the merged rows whose mask is true |
| Usuarios.ChangesIff | pages/8_Usuarios.py:98-111 | a pair is a change exactly when it is a merged row with some compared column differing, and every change has an original row |
| Usuarios.ChangeMask | pages/8_Usuarios.py:107-109 | the loop over the compared columns gives one mask entry per merged row, equal to the or of its column comparisons |
| Usuarios.PickedChanged | pages/8_Usuarios.py:111 | selecting the merged rows by the mask gives the changed rows |
| Usuarios.EscStrLiteral | pages/8_Usuarios.py:25-26 | in standard SQL, `_esc` of any text, inside quotes, reads back as that text (Snowflake backslashes are the SqlText finding) |
| Usuarios.NameValue | pages/8_Usuarios.py:123-126 | NAME is written as NULL exactly when the edited value is missing |
| Usuarios.Updates | pages/8_Usuarios.py:117-131 | one UPDATE per changed row |
| Usuarios.UserUpdateWrites | pages/8_Usuarios.py:118-131 | a successful UPDATE sets ROLE and NAME as edited on the rows with the username, and leaves every other cell and every other row unchanged |
| Usuarios.SaveUsers | pages/8_Usuarios.py:91-137 | an invalid role refuses the save and an empty change list saves nothing (tables unchanged); otherwise the UPDATEs run in order, each committed, and the tables are those after all of them, or after those before the first one that fails |
| Usuarios.SafeIff | pages/8_Usuarios.py:161 | a username is on the safe list exactly when it is marked and is not the signed-in user once trimmed and lower-cased |
| Usuarios.DeleteKeeps | pages/8_Usuarios.py:161-169 | the DELETE keeps the signed-in user's row and every unmarked row, and removes every row on the safe list |
| Usuarios.DeleteUsers | pages/8_Usuarios.py:149-174 | the button is disabled exactly when the confirmation is not EXCLUIR or nothing is marked; an empty safe list refuses; otherwise one DELETE runs, and the tables change only when it succeeds |
| Usuarios.AddUser | pages/8_Usuarios.py:203-237 | a user is created exactly when the username is not blank, the role is valid, the username is new and any custom password is non-blank, confirmed and at least 4 characters long; each refusal, the three password refusals included, is given exactly when its check is the first that fails |
| Usuarios.AddUserCreated | pages/8_Usuarios.py:204-241 | a created user has a trimmed new username, a valid role, a name defaulting to the username, and the custom password or the default one |

## Left out

- Streamlit itself (widgets, tabs, dialogs, `data_editor`, messages, `st.stop`/`st.rerun`) is not modelled. The selected IDs, the edited rows, the typed confirmation, the reason and the signed-in user are parameters, and each page action returns an outcome that names the message branch it ends in.
- Snowflake sessions, connection set-up, `ALTER SESSION SET TIMEZONE` and the DDL in src/db_snowflake.py are I/O. One sequential session is modelled, and concurrency and isolation are not.
- Clocks (`CURRENT_TIMESTAMP()`, `datetime.now`, `data_hoje`) are values passed in. Timestamps are compared as their text, as the removal listing's ordering does.
- `coerce_datetimes` and `build_datetime_column_config` only change how columns are shown, so they are not modelled.
- Floating point: a float cell is kept by its Python `repr`. Only decimal reprs, `inf`, `-inf` and `nan` are given a meaning, and exponent-form reprs do not read back as literals.
- `to_float_ok`, `to_int_ok` and `pd.to_numeric` are abstract parsers passed in as functions.
- Case mapping (`upper`, `lower`, `case=False`) is ASCII only, and there is no Unicode normalisation. Column names are compared exactly as the table reports them.
- src/db_snowflake.py is not part of this model. Its helpers are handled as follows:
  - `log_validacao` and `log_reprovacao` are recorded as the list of calls made, in order, and their own effects and exceptions are not modelled;
  - `codigo_produto_exists_any` and `fetch_existing_codigos_dual` are a lookup function and the two sets of codes found;
  - `insert_item` is the insert result of each row;
  - `users_list_usernames` is the set `existing`;
  - `users_create_or_update` and password hashing are not modelled, and the add-user check returns the user it would create.
- These src/utils.py helpers are not part of this model: `gerar_sinonimo`, `gerar_palavra_chave`, `gerar_excel` and the Excel template. The SINONIMO and PALAVRA_CHAVE columns they fill are not modelled.
- `_persist_sinonimo_batch` in pages/3_Validacao.py builds the same CASE-per-ID text as the INSUMO batch but only from those generators, so it is not modelled.
- Excel and CSV reading and writing (`read_excel`, `ExcelWriter`, downloads) are I/O. The registration upload starts from the sheet's rows.
- The auth pages, `current_user()` internals, the home page and the page icons are not modelled.
- A `ROLLBACK` that itself fails (its exception is swallowed) is not modelled: a rollback always restores the snapshot.
- On the removal page, no signed-in user (`u` is `None`, so `u.get` raises inside the `try`) is reported as `Crashed`. The source shows the same failure message, and the tables are unchanged either way.
- The store names each page uses are distinct constants in the source. The move methods require them distinct (`Distinct`, and `st.cor != st.main` for resubmission).
- Usuarios.SaveUsers: requires `UsersPageOk`, because the page stops before any button when USERNAME or ROLE is missing.
- Usuarios.SaveUsers uses the page's change detection as written, so a NAME filled in from null is not saved (see Findings).
- The user search (`ilike` on USERNAME), the 1000-row limit and the empty-result stop of the users page are not modelled. The grid is the rows passed in.
- The audit tuples that pages/6_NaoAprovados.py builds (`values_audit`) are never sent to the database. Only the `KeyError` their loop can raise for an ID missing from the edits is modelled.
- The history tab of pages/4_Validacao.py (its date range and decision SQL filter) is not modelled, apart from the validator-username extraction. The approved and correction tabs' display filters (lines 257-306) are not modelled either.
- The approved-table update page decides its stamp columns from `df.columns`. They are passed to Atualizacao.SaveEdits as a parameter (`stamps`).
- In the removal listing, when two log rows of a code have the same DATA_REMOCAO the model picks the first in storage order. Snowflake's `ROW_NUMBER()` leaves that tie unspecified.
- pandas index labels that are missing are matched together in the key-by-key diffs.
- SqlText.SqlStrSnowflakeNoBackslash: Snowflake's reading of a `sql_str` literal is proved only for text without backslashes, since with backslashes it is wrong (see Findings).
- Validacao.ApplyDecision: stores the standard-SQL reading of its `sql_str` literals (`SqlStrValue`), which is what Snowflake stores only when the text has no backslash (SqlText.SqlStrSnowflakeNoBackslash) or when the corrected writer SqlText.SqlStrSafe is used; a text with a backslash, for which the statement as written fails or stores other text, is not modelled.
- Validacao.DecisionMoves: stores the standard-SQL reading of its `sql_str` literals (`SqlStrValue`), which is what Snowflake stores only when the text has no backslash (SqlText.SqlStrSnowflakeNoBackslash) or when the corrected writer SqlText.SqlStrSafe is used; a text with a backslash, for which the statement as written fails or stores other text, is not modelled.
- Validacao.RejectionStamped: stores the standard-SQL reading of its `sql_str` literals (`SqlStrValue`), which is what Snowflake stores only when the text has no backslash (SqlText.SqlStrSnowflakeNoBackslash) or when the corrected writer SqlText.SqlStrSafe is used; a text with a backslash, for which the statement as written fails or stores other text, is not modelled.
- Validacao.ApprovalStamped: stores the standard-SQL reading of its `sql_str` literals (`SqlStrValue`), which is what Snowflake stores only when the text has no backslash (SqlText.SqlStrSnowflakeNoBackslash) or when the corrected writer SqlText.SqlStrSafe is used; a text with a backslash, for which the statement as written fails or stores other text, is not modelled.
- ValidacaoAudit.ApplyAuditedDecision: stores the standard-SQL reading of its `sql_str` literals (`SqlStrValue`), which is what Snowflake stores only when the text has no backslash (SqlText.SqlStrSnowflakeNoBackslash) or when the corrected writer SqlText.SqlStrSafe is used; a text with a backslash, for which the statement as written fails or stores other text, is not modelled.
- ValidacaoAudit.AuditInsertStep: stores the standard-SQL reading of its `sql_str` literals (`SqlStrValue`), which is what Snowflake stores only when the text has no backslash (SqlText.SqlStrSnowflakeNoBackslash) or when the corrected writer SqlText.SqlStrSafe is used; a text with a backslash, for which the statement as written fails or stores other text, is not modelled.
- ValidacaoAudit.AuditedOutcome: stores the standard-SQL reading of its `sql_str` literals (`SqlStrValue`), which is what Snowflake stores only when the text has no backslash (SqlText.SqlStrSnowflakeNoBackslash) or when the corrected writer SqlText.SqlStrSafe is used; a text with a backslash, for which the statement as written fails or stores other text, is not modelled.
- ValidacaoAudit.AuditRowsStored: stores the standard-SQL reading of its `sql_str` literals (`SqlStrValue`), which is what Snowflake stores only when the text has no backslash (SqlText.SqlStrSnowflakeNoBackslash) or when the corrected writer SqlText.SqlStrSafe is used; a text with a backslash, for which the statement as written fails or stores other text, is not modelled.
- ValidacaoAudit.AuditedStamped: stores the standard-SQL reading of its `sql_str` literals (`SqlStrValue`), which is what Snowflake stores only when the text has no backslash (SqlText.SqlStrSnowflakeNoBackslash) or when the corrected writer SqlText.SqlStrSafe is used; a text with a backslash, for which the statement as written fails or stores other text, is not modelled.
- Insumo.PersistInsumoBatch: stores the standard-SQL reading of its `sql_str` literals (`SqlStrValue`), which is what Snowflake stores only when the text has no backslash (SqlText.SqlStrSnowflakeNoBackslash) or when the corrected writer SqlText.SqlStrSafe is used; a text with a backslash, for which the statement as written fails or stores other text, is not modelled.
- Insumo.BatchUpdatesChanged: stores the standard-SQL reading of its `sql_str` literals (`SqlStrValue`), which is what Snowflake stores only when the text has no backslash (SqlText.SqlStrSnowflakeNoBackslash) or when the corrected writer SqlText.SqlStrSafe is used; a text with a backslash, for which the statement as written fails or stores other text, is not modelled.
- NaoAprovados.EditsRun: stores the standard-SQL reading of its `sql_str` literals (`SqlStrValue`), which is what Snowflake stores only when the text has no backslash (SqlText.SqlStrSnowflakeNoBackslash) or when the corrected writer SqlText.SqlStrSafe is used; a text with a backslash, for which the statement as written fails or stores other text, is not modelled.
- NaoAprovados.EditedRowsCells: stores the standard-SQL reading of its `sql_str` literals (`SqlStrValue`), which is what Snowflake stores only when the text has no backslash (SqlText.SqlStrSnowflakeNoBackslash) or when the corrected writer SqlText.SqlStrSafe is used; a text with a backslash, for which the statement as written fails or stores other text, is not modelled.
- NaoAprovados.ResendOutcome: stores the standard-SQL reading of its `sql_str` literals (`SqlStrValue`), which is what Snowflake stores only when the text has no backslash (SqlText.SqlStrSnowflakeNoBackslash) or when the corrected writer SqlText.SqlStrSafe is used; a text with a backslash, for which the statement as written fails or stores other text, is not modelled.
- NaoAprovados.ResendCarriesEdits: stores the standard-SQL reading of its `sql_str` literals (`SqlStrValue`), which is what Snowflake stores only when the text has no backslash (SqlText.SqlStrSnowflakeNoBackslash) or when the corrected writer SqlText.SqlStrSafe is used; a text with a backslash, for which the statement as written fails or stores other text, is not modelled.
- NaoAprovados.ResendToValidacao: stores the standard-SQL reading of its `sql_str` literals (`SqlStrValue`), which is what Snowflake stores only when the text has no backslash (SqlText.SqlStrSnowflakeNoBackslash) or when the corrected writer SqlText.SqlStrSafe is used; a text with a backslash, for which the statement as written fails or stores other text, is not modelled.
- Atualizacao.RowUpdateRuns: stores the standard-SQL reading of its `_sql_escape` literals (`SqlEscapeValue`), which is what Snowflake stores only when the text has no backslash (SqlText.SqlEscapeSnowflakeNoBackslash); a text with a backslash, for which the statement as written fails or stores other text, is not modelled.
- Atualizacao.RowUpdateWrites: stores the standard-SQL reading of its `_sql_escape` literals (`SqlEscapeValue`), which is what Snowflake stores only when the text has no backslash (SqlText.SqlEscapeSnowflakeNoBackslash); a text with a backslash, for which the statement as written fails or stores other text, is not modelled.
- Atualizacao.SaveEdits: stores the standard-SQL reading of its `_sql_escape` literals (`SqlEscapeValue`), which is what Snowflake stores only when the text has no backslash (SqlText.SqlEscapeSnowflakeNoBackslash); a text with a backslash, for which the statement as written fails or stores other text, is not modelled.
- Exclusao.EscLiteral: stores the standard-SQL reading of its quoted `_esc` literals, which is what Snowflake stores only when the text has no backslash (SqlText.EscSnowflakeNoBackslash); a text with a backslash, for which the statement as written fails or stores other text, is not modelled.
- Exclusao.RemovalOutcome: stores the standard-SQL reading of its quoted `_esc` literals, which is what Snowflake stores only when the text has no backslash (SqlText.EscSnowflakeNoBackslash); a text with a backslash, for which the statement as written fails or stores other text, is not modelled.
- Exclusao.RemovalLogs: stores the standard-SQL reading of its quoted `_esc` literals, which is what Snowflake stores only when the text has no backslash (SqlText.EscSnowflakeNoBackslash); a text with a backslash, for which the statement as written fails or stores other text, is not modelled.
- Exclusao.RemoveSelected: stores the standard-SQL reading of its quoted `_esc` literals, which is what Snowflake stores only when the text has no backslash (SqlText.EscSnowflakeNoBackslash); a text with a backslash, for which the statement as written fails or stores other text, is not modelled.
- Usuarios.UserUpdateWrites: stores the standard-SQL reading of its quoted `_esc` literals, which is what Snowflake stores only when the text has no backslash (SqlText.EscSnowflakeNoBackslash); a text with a backslash, for which the statement as written fails or stores other text, is not modelled.
- Usuarios.SaveUsers: stores the standard-SQL reading of its quoted `_esc` literals, which is what Snowflake stores only when the text has no backslash (SqlText.EscSnowflakeNoBackslash); a text with a backslash, for which the statement as written fails or stores other text, is not modelled.
- Usuarios.DeleteKeeps: stores the standard-SQL reading of its quoted `_esc` literals, which is what Snowflake stores only when the text has no backslash (SqlText.EscSnowflakeNoBackslash); a text with a backslash, for which the statement as written fails or stores other text, is not modelled.
- Usuarios.DeleteUsers: stores the standard-SQL reading of its quoted `_esc` literals, which is what Snowflake stores only when the text has no backslash (SqlText.EscSnowflakeNoBackslash); a text with a backslash, for which the statement as written fails or stores other text, is not modelled.
- Store.NewRow: columns are untyped: a table has no column types, DEFAULT values or IDENTITY columns, so a column the statement does not list is NULL and a value is stored as the literal reads, with no conversion to the column's type (a number written through `sql_str` stays text).
- Moves.MovedCells: columns are untyped: a table has no column types, DEFAULT values or IDENTITY columns, so a column the statement does not list is NULL and a value is stored as the literal reads, with no conversion to the column's type (a number written through `sql_str` stays text).
- Moves.ListedCopy: columns are untyped: a table has no column types, DEFAULT values or IDENTITY columns, so a column the statement does not list is NULL and a value is stored as the literal reads, with no conversion to the column's type (a number written through `sql_str` stays text).
- NaoAprovados.EditsRun: columns are untyped: a table has no column types, DEFAULT values or IDENTITY columns, so a column the statement does not list is NULL and a value is stored as the literal reads, with no conversion to the column's type (a number written through `sql_str` stays text).
- NaoAprovados.EditedRowsCells: columns are untyped: a table has no column types, DEFAULT values or IDENTITY columns, so a column the statement does not list is NULL and a value is stored as the literal reads, with no conversion to the column's type (a number written through `sql_str` stays text).
- NaoAprovados.ResendCarriesEdits: columns are untyped: a table has no column types, DEFAULT values or IDENTITY columns, so a column the statement does not list is NULL and a value is stored as the literal reads, with no conversion to the column's type (a number written through `sql_str` stays text).
- Filters.ILikeContains: `%` and `_` in the box are wildcards, but a backslash before them (Snowflake's LIKE escape) and the string escapes of the literal Snowpark builds are not modelled, and a non-text column is matched through the Python text of its cells.
- Text.ParseInt: Python's `int` also accepts `_` between digits and non-ASCII digits; the model reads such text as not an integer.
- Filters.RemovalLoadSpec: the rows are returned in storage order. The query has no ORDER BY, so Snowflake may return them in any order; the set of rows is what the lemma states.
- ValidacaoAudit.ApplyAuditedDecision: in pages/4_Validacao.py:360, 386-387 and 405-406 a signed-in user without a `username` or `name` key raises `KeyError`. The model takes the user as an `Actor` that always has both cells, so that failure is not modelled.

## Findings

| source | as written | input that shows it | evidently intended | confidence | as-written member | corrected member |
|---|---|---|---|---|---|---|
| pages/3_Validacao.py:50-54 (also pages/6_NaoAprovados.py:69-73, pages/4_Validacao.py:335-338) | `sql_str` doubles single quotes but leaves backslashes, which Snowflake treats as escapes inside single-quoted strings | the text `a\` gives the literal `'a\'`, in which the closing quote is escaped, so the statement cannot be read | every value written reads back as itself, for example with each backslash doubled as well | not executed | SqlText.SqlStrTrailingBackslash | SqlText.SqlStrSafe, SqlText.SqlStrSafeRoundTrip |
| pages/2_Cadastro.py:237-238 | `__LINHA_EXCEL__` is numbered from the error rows' own positions (`reset_index().index + 2`) | a sheet whose first row is valid and whose second row has an error: the error row is labelled 2 but sits on sheet line 3 | each error row carries the sheet line it came from (its original index + 2) | not executed | Cadastro.ErrorSheetLines, Cadastro.ErrorSheetLinesShifted | Cadastro.ErrorLines, Cadastro.ErrorLinesPointBack |
| pages/8_Usuarios.py:107-111 | the change mask compares `astype("string")` values, and `!=` against a missing value is missing, which `.loc` treats as not selected | a user whose NAME goes from null to "Ana" is not saved | a value that appears or disappears counts as a change | not executed | Usuarios.Changed, Usuarios.NameFromNullMissed | Usuarios.ChangedIntended, Usuarios.ChangedIsIntended, Usuarios.ChangedAgreesWithoutNa |
