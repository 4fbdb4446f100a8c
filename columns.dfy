/** Column lists: the orders the pages show a frame's columns in, the column
    selection of a table load, and the normalisation of uploaded headers. */
module Columns {
  import opened Wrappers
  import opened Text

  predicate NoDup(s: seq<string>) {
    forall i, j :: 0 <= i < j < |s| ==> s[i] != s[j]
  }

  /** `[c for c in wanted if c in cols]` */
  function Present(wanted: seq<string>, cols: seq<string>): (r: seq<string>)
    ensures forall c :: c in r <==> c in wanted && c in cols
    decreases |wanted|
  {
    if wanted == [] then []
    else (if wanted[0] in cols then [wanted[0]] else []) + Present(wanted[1..], cols)
  }

  /** `[c for c in cols if c not in excluded]` */
  function Absent(cols: seq<string>, excluded: seq<string>): (r: seq<string>)
    ensures forall c :: c in r <==> c in cols && c !in excluded
    decreases |cols|
  {
    if cols == [] then []
    else (if cols[0] in excluded then [] else [cols[0]]) + Absent(cols[1..], excluded)
  }

  /** `reorder(df, wanted)` of the catalogue and update pages: the wanted columns
      the frame has, in the wanted order, then the others in the frame's order. */
  function Reorder(cols: seq<string>, wanted: seq<string>): seq<string> {
    var keep := Present(wanted, cols);
    keep + Absent(cols, keep)
  }

  /** `reorder(df, wanted, prepend)` of the validation pages. */
  function ReorderPrepend(cols: seq<string>, wanted: seq<string>, prepend: seq<string>): seq<string> {
    var keep := Present(wanted, cols);
    Present(prepend, cols) + keep + Absent(cols, prepend + keep)
  }

  /** The inline reorder of the approval-queue update page, which excludes by the
      whole preferred list rather than by the columns kept: the same order. */
  lemma {:induction false} PreferredIsReorder(cols: seq<string>, preferred: seq<string>)
    ensures Present(preferred, cols) + Absent(cols, preferred) == Reorder(cols, preferred)
  {
    AbsentSame(cols, preferred, Present(preferred, cols));
  }

  lemma {:induction false} AbsentSame(cols: seq<string>, e1: seq<string>, e2: seq<string>)
    requires forall c :: c in cols ==> (c in e1 <==> c in e2)
    ensures Absent(cols, e1) == Absent(cols, e2)
    decreases |cols|
  {
    if cols != [] {
      AbsentSame(cols[1..], e1, e2);
    }
  }

  lemma {:induction false} NoDupCount(s: seq<string>, c: string)
    requires NoDup(s)
    ensures multiset(s)[c] == if c in s then 1 else 0
    decreases |s|
  {
    if s != [] {
      assert s == [s[0]] + s[1..];
      assert NoDup(s[1..]) by {
        forall i, j | 0 <= i < j < |s[1..]| ensures s[1..][i] != s[1..][j] {
          assert s[1..][i] == s[i + 1] && s[1..][j] == s[j + 1];
        }
      }
      NoDupCount(s[1..], c);
      if s[0] == c {
        assert c !in s[1..] by {
          forall j | 0 <= j < |s[1..]| ensures s[1..][j] != c {
            assert s[1..][j] == s[j + 1];
          }
        }
      }
    }
  }

  lemma {:induction false} PresentCount(wanted: seq<string>, cols: seq<string>, c: string)
    ensures multiset(Present(wanted, cols))[c] == if c in cols then multiset(wanted)[c] else 0
    decreases |wanted|
  {
    if wanted != [] {
      PresentCount(wanted[1..], cols, c);
      var h := if wanted[0] in cols then [wanted[0]] else [];
      assert multiset(Present(wanted, cols)) == multiset(h) + multiset(Present(wanted[1..], cols));
      assert wanted == [wanted[0]] + wanted[1..];
      assert multiset(wanted) == multiset{wanted[0]} + multiset(wanted[1..]);
    }
  }

  lemma {:induction false} AbsentCount(cols: seq<string>, excluded: seq<string>, c: string)
    ensures multiset(Absent(cols, excluded))[c] == if c in excluded then 0 else multiset(cols)[c]
    decreases |cols|
  {
    if cols != [] {
      AbsentCount(cols[1..], excluded, c);
      assert cols == [cols[0]] + cols[1..];
      assert multiset(cols) == multiset{cols[0]} + multiset(cols[1..]);
      if cols[0] in excluded {
        assert Absent(cols, excluded) == Absent(cols[1..], excluded);
      } else {
        assert Absent(cols, excluded) == [cols[0]] + Absent(cols[1..], excluded);
        assert multiset(Absent(cols, excluded)) == multiset{cols[0]} + multiset(Absent(cols[1..], excluded));
      }
    }
  }

  /** Reordering a frame's columns neither loses nor repeats one. */
  lemma ReorderPermutes(cols: seq<string>, wanted: seq<string>)
    requires NoDup(cols) && NoDup(wanted)
    ensures multiset(Reorder(cols, wanted)) == multiset(cols)
  {
    var keep := Present(wanted, cols);
    forall c ensures multiset(Reorder(cols, wanted))[c] == multiset(cols)[c] {
      PresentCount(wanted, cols, c);
      AbsentCount(cols, keep, c);
      NoDupCount(cols, c);
      NoDupCount(wanted, c);
    }
  }

  /** With a prepended list the same holds while no column is both prepended and wanted;
      a column in both lists comes out twice. */
  lemma ReorderPrependPermutes(cols: seq<string>, wanted: seq<string>, prepend: seq<string>)
    requires NoDup(cols) && NoDup(wanted) && NoDup(prepend)
    requires forall c :: c in prepend ==> c !in wanted
    ensures multiset(ReorderPrepend(cols, wanted, prepend)) == multiset(cols)
  {
    var keep := Present(wanted, cols);
    forall c ensures multiset(ReorderPrepend(cols, wanted, prepend))[c] == multiset(cols)[c] {
      PresentCount(prepend, cols, c);
      PresentCount(wanted, cols, c);
      AbsentCount(cols, prepend + keep, c);
      NoDupCount(cols, c);
      NoDupCount(wanted, c);
      NoDupCount(prepend, c);
    }
  }

  lemma ReorderPrependRepeats(cols: seq<string>, wanted: seq<string>, prepend: seq<string>, c: string)
    requires c in cols && c in wanted && c in prepend
    ensures multiset(ReorderPrepend(cols, wanted, prepend))[c] >= 2
  {
    PresentCount(prepend, cols, c);
    PresentCount(wanted, cols, c);
  }

  /** The front of the reordered list is the wanted columns present, in the wanted order,
      and every column behind them is one the wanted list does not name. */
  lemma ReorderShape(cols: seq<string>, wanted: seq<string>)
    ensures |Present(wanted, cols)| <= |Reorder(cols, wanted)|
    ensures Reorder(cols, wanted)[..|Present(wanted, cols)|] == Present(wanted, cols)
    ensures forall i :: |Present(wanted, cols)| <= i < |Reorder(cols, wanted)| ==>
              Reorder(cols, wanted)[i] in cols && Reorder(cols, wanted)[i] !in wanted
  {
    var keep := Present(wanted, cols);
    var r := Reorder(cols, wanted);
    assert r[..|keep|] == keep;
    forall i | |keep| <= i < |r| ensures r[i] in cols && r[i] !in wanted {
      assert r[i] == Absent(cols, keep)[i - |keep|];
    }
  }

  // ---------------------------------------------------------------------------
  // The catalogue page moves TIPO_PRODUTO right behind CODIGO_PRODUTO.

  /** `list.remove(x)`: drops the first occurrence. */
  function RemoveFirst<T(==)>(s: seq<T>, x: T): (r: seq<T>)
    requires x in s
    ensures |r| == |s| - 1
    decreases |s|
  {
    if s[0] == x then s[1..]
    else [s[0]] + RemoveFirst(s[1..], x)
  }

  /** It removes exactly one `x`. */
  lemma {:induction false} RemoveFirstCount<T>(s: seq<T>, x: T)
    requires x in s
    ensures multiset(RemoveFirst(s, x)) == multiset(s) - multiset{x}
    decreases |s|
  {
    assert s == [s[0]] + s[1..];
    if s[0] != x {
      RemoveFirstCount(s[1..], x);
    }
  }

  /** `list.index(x)` */
  function IndexOf(s: seq<string>, x: string): (i: nat)
    requires x in s
    ensures i < |s| && s[i] == x && x !in s[..i]
    decreases |s|
  {
    if s[0] == x then 0
    else
      assert s[1..][..IndexOf(s[1..], x)] == s[1..IndexOf(s[1..], x) + 1];
      1 + IndexOf(s[1..], x)
  }

  /** What `move_after(cols, col, after)` leaves in the list: `Err` where
      `cols.index(after)` raises because `after` was `col` and occurred once. */
  function MoveAfterSpec(cols: seq<string>, col: string, after: string): Result<seq<string>> {
    if col in cols && after in cols then
      var removed := RemoveFirst(cols, col);
      if after in removed then Ok(PutAfter(removed, after, col))
      else Err("list.index(x): x not in list")
    else Ok(cols)
  }

  /** `cols.insert(cols.index(after) + 1, col)` */
  function PutAfter(cols: seq<string>, after: string, col: string): seq<string>
    requires after in cols
  {
    var idx := IndexOf(cols, after) + 1;
    cols[..idx] + [col] + cols[idx..]
  }

  /** The list of a frame's columns that `move_after` rearranges in place. */
  class ColumnList {
    var cols: seq<string>

    constructor(cs: seq<string>)
      ensures cols == cs
    {
      cols := cs;
    }

    /** `move_after`; `raised` is the ValueError, with the list already missing `col`. */
    method MoveAfter(col: string, after: string) returns (raised: bool)
      modifies this
      ensures raised <==> MoveAfterSpec(old(cols), col, after).Err?
      ensures !raised ==> cols == MoveAfterSpec(old(cols), col, after).value
      ensures raised ==> cols == RemoveFirst(old(cols), col)
    {
      raised := false;
      if col in cols && after in cols {
        cols := RemoveFirst(cols, col);
        if after !in cols {
          raised := true;
          return;
        }
        cols := PutAfter(cols, after, col);
      }
    }
  }

  /** For two distinct columns of the frame, the moved column (which the frame has once)
      ends up right behind the other, every column is kept, and the others keep their
      order; otherwise nothing moves. */
  lemma MoveAfterPlaces(cols: seq<string>, col: string, after: string)
    requires col in cols && after in cols && col != after
    requires multiset(cols)[col] == 1
    ensures MoveAfterSpec(cols, col, after).Ok?
    ensures var r := MoveAfterSpec(cols, col, after).value;
      && multiset(r) == multiset(cols)
      && IndexOf(r, after) + 1 < |r| && r[IndexOf(r, after) + 1] == col
      && RemoveFirst(r, col) == RemoveFirst(cols, col)
  {
    var removed := RemoveFirst(cols, col);
    RemoveFirstRestore(cols, col);
    assert after in removed;
    InsertAfter(removed, after, col);
  }

  lemma RemoveFirstRestore(cols: seq<string>, col: string)
    requires col in cols && multiset(cols)[col] == 1
    ensures multiset(RemoveFirst(cols, col)) + multiset{col} == multiset(cols)
    ensures col !in RemoveFirst(cols, col)
    ensures forall c :: c in cols && c != col ==> c in RemoveFirst(cols, col)
  {
    var removed := RemoveFirst(cols, col);
    RemoveFirstCount(cols, col);
    assert multiset(removed)[col] == 0;
    forall c | c in cols && c != col ensures c in removed {
      assert multiset(removed)[c] == multiset(cols)[c];
    }
  }

  lemma InsertAfter(removed: seq<string>, after: string, col: string)
    requires after in removed && col !in removed
    ensures var r := PutAfter(removed, after, col);
      && multiset(r) == multiset(removed) + multiset{col}
      && IndexOf(r, after) + 1 < |r| && r[IndexOf(r, after) + 1] == col
      && RemoveFirst(r, col) == removed
  {
    var idx := IndexOf(removed, after) + 1;
    var r := removed[..idx] + [col] + removed[idx..];
    assert removed == removed[..idx] + removed[idx..];
    assert r[..idx - 1] == removed[..idx - 1];
    IndexOfPrefix(r, after, idx - 1);
    assert col !in removed[..idx];
    RemoveFirstAt(removed[..idx], col, removed[idx..]);
  }

  lemma IndexOfPrefix(s: seq<string>, x: string, i: nat)
    requires i < |s| && s[i] == x && x !in s[..i]
    ensures IndexOf(s, x) == i
  {
  }

  lemma {:induction false} RemoveFirstAt<T>(a: seq<T>, x: T, b: seq<T>)
    requires x !in a
    ensures RemoveFirst(a + [x] + b, x) == a + b
    decreases |a|
  {
    var s := a + [x] + b;
    if a == [] {
      assert s[0] == x && s[1..] == b;
    } else {
      assert s[0] == a[0] && a[0] != x;
      assert s[1..] == a[1..] + [x] + b;
      RemoveFirstAt(a[1..], x, b);
      assert RemoveFirst(s, x) == [a[0]] + (a[1..] + b);
      assert a + b == [a[0]] + (a[1..] + b);
    }
  }

  lemma MoveAfterAbsent(cols: seq<string>, col: string, after: string)
    requires col !in cols || after !in cols
    ensures MoveAfterSpec(cols, col, after) == Ok(cols)
  {
  }

  lemma MoveAfterSelf(cols: seq<string>, col: string)
    requires multiset(cols)[col] == 1
    ensures MoveAfterSpec(cols, col, col).Err?
  {
    var removed := RemoveFirst(cols, col);
    RemoveFirstCount(cols, col);
    assert multiset(removed)[col] == 0;
  }

  // ---------------------------------------------------------------------------
  // Loading a table with a preferred column list

  /** The columns `load_df_from_fqn` selects: the wanted ones the table has, in the
      wanted order; the whole table when none is wanted or none of them exists. */
  function LoadColumns(existing: seq<string>, wanted: seq<string>): seq<string> {
    if wanted == [] || Present(wanted, existing) == [] then existing
    else Present(wanted, existing)
  }

  lemma LoadColumnsExist(existing: seq<string>, wanted: seq<string>)
    ensures forall c :: c in LoadColumns(existing, wanted) ==> c in existing
    ensures existing != [] ==> LoadColumns(existing, wanted) != []
    ensures (exists c :: c in wanted && c in existing) ==> LoadColumns(existing, wanted) == Present(wanted, existing)
    ensures (forall c :: c in wanted ==> c !in existing) ==> LoadColumns(existing, wanted) == existing
  {
    if exists c :: c in wanted && c in existing {
      var c :| c in wanted && c in existing;
      assert c in Present(wanted, existing);
    }
  }

  // ---------------------------------------------------------------------------
  // Headers of an uploaded sheet

  predicate HeaderChar(c: char) {
    'A' <= c <= 'Z' || '0' <= c <= '9' || c == '_'
  }

  /** `re.sub(r"\s+", "_", s)`: each run of whitespace becomes one underscore. */
  function CollapseSpace(s: string): (r: string)
    ensures NoSpace(r)
    decreases |s|
  {
    if s == [] then []
    else if IsSpace(s[0]) then "_" + CollapseSpace(SkipSpace(s[1..]))
    else [s[0]] + CollapseSpace(s[1..])
  }

  function SkipSpace(s: string): (r: string)
    ensures |r| <= |s|
    decreases |s|
  {
    if s != [] && IsSpace(s[0]) then SkipSpace(s[1..]) else s
  }

  /** `re.sub(r"[^A-Z0-9_]", "", s)` */
  function KeepHeaderChars(s: string): (r: string)
    ensures forall i :: 0 <= i < |r| ==> HeaderChar(r[i])
    decreases |s|
  {
    if s == [] then []
    else (if HeaderChar(s[0]) then [s[0]] else []) + KeepHeaderChars(s[1..])
  }

  /** `_normalize_cols` on one header. */
  function NormalizeHeader(h: string): string {
    KeepHeaderChars(CollapseSpace(Upper(Strip(h))))
  }

  /** A normalised header is made of capitals, digits and underscores, and normalising
      it again changes nothing. */
  lemma NormalizeHeaderNormal(h: string)
    ensures forall i :: 0 <= i < |NormalizeHeader(h)| ==> HeaderChar(NormalizeHeader(h)[i])
    ensures NormalizeHeader(NormalizeHeader(h)) == NormalizeHeader(h)
  {
    var n := NormalizeHeader(h);
    HeaderIsFixed(n);
  }

  lemma HeaderIsFixed(s: string)
    requires forall i :: 0 <= i < |s| ==> HeaderChar(s[i])
    ensures NormalizeHeader(s) == s
  {
    assert NoSpace(s);
    StripNoEnds(s);
    assert Upper(s) == s;
    CollapseNoSpace(s);
    KeepAllHeader(s);
  }

  lemma {:induction false} CollapseNoSpace(s: string)
    requires NoSpace(s)
    ensures CollapseSpace(s) == s
    decreases |s|
  {
    if s != [] {
      assert !IsSpace(s[0]);
      assert NoSpace(s[1..]) by {
        forall i | 0 <= i < |s[1..]| ensures !IsSpace(s[1..][i]) {
          assert s[1..][i] == s[i + 1];
        }
      }
      CollapseNoSpace(s[1..]);
      assert s == [s[0]] + s[1..];
    }
  }

  lemma {:induction false} KeepAllHeader(s: string)
    requires forall i :: 0 <= i < |s| ==> HeaderChar(s[i])
    ensures KeepHeaderChars(s) == s
    decreases |s|
  {
    if s != [] {
      assert HeaderChar(s[0]);
      assert forall i :: 0 <= i < |s[1..]| ==> HeaderChar(s[1..][i]) by {
        forall i | 0 <= i < |s[1..]| ensures HeaderChar(s[1..][i]) {
          assert s[1..][i] == s[i + 1];
        }
      }
      KeepAllHeader(s[1..]);
      assert s == [s[0]] + s[1..];
    }
  }
}
