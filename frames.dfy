/**
 * A pandas DataFrame as a value: the column names in order, one column of
 * cells per name, and the row count that every column shares.
 */
module Frames {
  import opened Cells

  /** The numeric columns of the student datasets, in the order every script lists them. */
  const NumCols: seq<string> := ["age", "absences", "G1", "G2", "G3"]

  datatype Frame = Frame(names: seq<string>, cols: map<string, seq<Cell>>, nrows: nat) {

    /** The names are exactly the columns, all of the same length. */
    predicate Valid() {
      && (forall c :: c in cols ==> c in names)
      && (forall i :: 0 <= i < |names| ==> names[i] in cols)
      && (forall c :: c in cols ==> |cols[c]| == nrows)
    }

    /** As the CSV reader builds it: no column mixes numbers and strings. */
    predicate Typed() {
      forall c :: c in cols ==> Homogeneous(cols[c])
    }
  }

  /** df[c] = col: replaces column c, or appends it as the last column. */
  function SetColumn(f: Frame, c: string, col: seq<Cell>): (g: Frame)
    requires f.Valid() && |col| == f.nrows
    ensures g.Valid() && g.nrows == f.nrows && g.cols == f.cols[c := col]
    ensures g.names == if c in f.cols then f.names else f.names + [c]
  {
    Frame(if c in f.cols then f.names else f.names + [c], f.cols[c := col], f.nrows)
  }

  /** Replacing or adding a column that mixes no numbers and strings keeps a frame typed. */
  lemma SetColumnTyped(f: Frame, c: string, col: seq<Cell>)
    requires f.Valid() && f.Typed() && |col| == f.nrows && Homogeneous(col)
    ensures SetColumn(f, c, col).Typed()
  {
  }

  /** Two frames with the same names, rows and columns are the same frame. */
  lemma SameColumns(f: Frame, g: Frame)
    requires f.names == g.names && f.nrows == g.nrows && f.cols.Keys == g.cols.Keys
    requires forall c :: c in f.cols ==> f.cols[c] == g.cols[c]
    ensures f == g
  {
    assert f.cols == g.cols;
  }

  /** Row i, its cells in column order. */
  function Row(f: Frame, i: nat): (r: seq<Cell>)
    requires f.Valid() && i < f.nrows
    ensures |r| == |f.names|
  {
    seq(|f.names|, j requires 0 <= j < |f.names| => f.cols[f.names[j]][i])
  }

  function Rows(f: Frame): (rs: seq<seq<Cell>>)
    requires f.Valid()
    ensures |rs| == f.nrows
  {
    seq(f.nrows, i requires 0 <= i < f.nrows => Row(f, i))
  }

  // ---------------------------------------------------------------------
  // Boolean row selection, df[mask]

  function CountTrue(keep: seq<bool>): nat
  {
    CountWhere(keep, (b: bool) => b)
  }

  /** The elements whose mask entry is true, in their original order. */
  function Select<T>(s: seq<T>, keep: seq<bool>): (r: seq<T>)
    requires |keep| == |s|
    ensures |r| == CountTrue(keep)
  {
    if s == [] then []
    else
      var n := |s| - 1;
      assert keep[..|keep| - 1] == keep[..n];
      Select(s[..n], keep[..n]) + (if keep[n] then [s[n]] else [])
  }

  /** Each kept element lands after exactly the kept elements before it. */
  lemma {:induction false} SelectPosition<T>(s: seq<T>, keep: seq<bool>, i: nat)
    requires |keep| == |s| && i < |s| && keep[i]
    ensures CountTrue(keep[..i]) < CountTrue(keep)
    ensures Select(s, keep)[CountTrue(keep[..i])] == s[i]
  {
    var n := |s| - 1;
    if i < n {
      assert keep[..n][..i] == keep[..i];
      SelectPosition(s[..n], keep[..n], i);
    } else {
      assert keep[..i] == keep[..n];
    }
  }

  /** Everything selected was an element whose mask entry is true. */
  lemma {:induction false} SelectOnlyKept<T>(s: seq<T>, keep: seq<bool>, k: nat)
    requires |keep| == |s| && k < CountTrue(keep)
    ensures exists i :: 0 <= i < |s| && keep[i] && s[i] == Select(s, keep)[k]
  {
    var n := |s| - 1;
    assert keep[..|keep| - 1] == keep[..n];
    var init := Select(s[..n], keep[..n]);
    if k < |init| {
      SelectOnlyKept(s[..n], keep[..n], k);
      var i :| 0 <= i < n && keep[..n][i] && s[..n][i] == init[k];
      assert keep[i] && s[i] == Select(s, keep)[k];
    } else {
      assert keep[n] && s[n] == Select(s, keep)[k];
    }
  }

  /** The position of the k-th kept element. */
  function KthKept(keep: seq<bool>, k: nat): (i: nat)
    requires k < CountTrue(keep)
    ensures i < |keep| && keep[i]
  {
    var n := |keep| - 1;
    if k < CountTrue(keep[..n]) then KthKept(keep[..n], k) else n
  }

  /** The k-th selected element is the one at the k-th kept position, whatever s is. */
  lemma {:induction false} SelectAt<T>(s: seq<T>, keep: seq<bool>, k: nat)
    requires |keep| == |s| && k < CountTrue(keep)
    ensures Select(s, keep)[k] == s[KthKept(keep, k)]
  {
    var n := |s| - 1;
    assert keep[..|keep| - 1] == keep[..n];
    if k < CountTrue(keep[..n]) {
      SelectAt(s[..n], keep[..n], k);
    }
  }

  /** Applies one row mask to every column. */
  function FilterRows(f: Frame, keep: seq<bool>): (g: Frame)
    requires f.Valid() && |keep| == f.nrows
    ensures g.Valid() && g.names == f.names && g.cols.Keys == f.cols.Keys
    ensures g.nrows == CountTrue(keep) <= f.nrows
  {
    CountWhereBounded(keep, (b: bool) => b);
    Frame(f.names, map c | c in f.cols :: Select(f.cols[c], keep), CountTrue(keep))
  }

  /** Filtering the frame filters its rows: the rows kept are the rows of the mask, in order. */
  lemma FilterRowsRows(f: Frame, keep: seq<bool>)
    requires f.Valid() && |keep| == f.nrows
    ensures Rows(FilterRows(f, keep)) == Select(Rows(f), keep)
  {
    var g := FilterRows(f, keep);
    var rs := Select(Rows(f), keep);
    forall k | 0 <= k < g.nrows ensures Row(g, k) == rs[k] {
      var i := KthKept(keep, k);
      SelectAt(Rows(f), keep, k);
      forall j | 0 <= j < |f.names| ensures Row(g, k)[j] == Row(f, i)[j] {
        SelectAt(f.cols[f.names[j]], keep, k);
      }
    }
  }

  // ---------------------------------------------------------------------
  // for c in cols: if c in df.columns: df[c] = pd.to_numeric(df[c], errors="coerce")

  /** The frame after coercing each present column named in cs to numeric. */
  function CoerceColumns(f: Frame, cs: seq<string>): (g: Frame)
    requires f.Valid()
    ensures g.Valid() && g.names == f.names && g.nrows == f.nrows && g.cols.Keys == f.cols.Keys
  {
    Frame(f.names, map c | c in f.cols :: if c in cs then ToNumericCol(f.cols[c]) else f.cols[c], f.nrows)
  }

  /**
   * Coercion leaves every other column alone; a coerced column holds no text, its
   * numbers and NaN entries are kept, and each string becomes the number it spells
   * or NaN.
   */
  lemma CoerceColumnsEffect(f: Frame, cs: seq<string>, c: string, i: nat)
    requires f.Valid() && c in f.cols && i < f.nrows
    ensures var g, was := CoerceColumns(f, cs).cols[c], f.cols[c];
      && (c !in cs ==> g == was)
      && (c in cs ==> IsNumeric(g))
      && (c in cs && !was[i].Text? ==> g[i] == was[i])
      && (c in cs && was[i].Text? ==>
            g[i] == match ParseNumber(was[i].s) case Some(v) => Num(v) case None => Missing)
  {
  }

  /** Coercing one more column is one SetColumn on the frame coerced so far. */
  lemma CoerceOneMore(f: Frame, cs: seq<string>, i: nat)
    requires f.Valid() && i < |cs|
    ensures var g := CoerceColumns(f, cs[..i]);
      CoerceColumns(f, cs[..i + 1]) ==
        if cs[i] in g.cols then SetColumn(g, cs[i], ToNumericCol(g.cols[cs[i]])) else g
  {
    var pre, post := cs[..i], cs[..i + 1];
    assert post == pre + [cs[i]];
    assert forall c :: c in post <==> c in pre || c == cs[i];
    var g := CoerceColumns(f, pre);
    var h := CoerceColumns(f, post);
    if cs[i] in g.cols {
      var s := SetColumn(g, cs[i], ToNumericCol(g.cols[cs[i]]));
      forall c | c in h.cols ensures h.cols[c] == s.cols[c] {
        if c == cs[i] {
          assert h.cols[c] == ToNumericCol(f.cols[c]);
        }
      }
      assert h.cols == s.cols;
    } else {
      assert h.cols == g.cols;
    }
  }

  /** The coercion loop shared by the cleaning, capping and exploration scripts. */
  method CoerceNumeric(f: Frame, cs: seq<string>) returns (g: Frame)
    requires f.Valid()
    ensures g == CoerceColumns(f, cs)
  {
    g := f;
    assert f.cols == CoerceColumns(f, cs[..0]).cols;
    for i := 0 to |cs|
      invariant g == CoerceColumns(f, cs[..i])
    {
      CoerceOneMore(f, cs, i);
      if cs[i] in g.cols {
        g := SetColumn(g, cs[i], ToNumericCol(g.cols[cs[i]]));
      }
    }
    assert cs[..|cs|] == cs;
  }
}
