/**
 * scripts/clean_v1_enforce_types.py: coerce_types makes the numeric columns
 * numeric and strips every text column, then process drops the rows whose
 * three grades are all missing.
 */
module Clean {
  import opened Cells
  import opened Frames

  // ---------------------------------------------------------------------
  // Stripping the text columns

  /** A column read from a CSV that holds a string holds no number. */
  lemma ObjectHasNoNumbers(col: seq<Cell>)
    requires Homogeneous(col) && IsObject(col)
    ensures forall i :: 0 <= i < |col| ==> !col[i].Num?
  {
  }

  /** df[c].astype(str).str.strip() on an object column. */
  function StripColumn(col: seq<Cell>): (r: seq<Cell>)
    requires forall i :: 0 <= i < |col| ==> !col[i].Num?
    ensures |r| == |col| && Homogeneous(r)
    ensures forall i :: 0 <= i < |r| ==> r[i].Text? && Strip(r[i].s) == r[i].s
    ensures forall i :: 0 <= i < |r| && col[i].Text? ==> TrimmedFrom(r[i].s, col[i].s)
    ensures forall i :: 0 <= i < |r| && col[i].Missing? ==> r[i] == Text("nan")
  {
    seq(|col|, i requires 0 <= i < |col| => StripCell(col[i]))
  }

  /** The column after the strip loop: stripped when its dtype is object. */
  function StripIfObject(col: seq<Cell>): seq<Cell>
    requires Homogeneous(col)
  {
    if IsObject(col) then
      ObjectHasNoNumbers(col);
      StripColumn(col)
    else col
  }

  /** One pass of the strip loop: column c is stripped in place when its dtype is object. */
  function StripStep(f: Frame, c: string): (g: Frame)
    requires f.Valid() && f.Typed()
    ensures g.Valid() && g.Typed() && g.names == f.names && g.nrows == f.nrows && g.cols.Keys == f.cols.Keys
  {
    if c in f.cols && IsObject(f.cols[c]) then
      ObjectHasNoNumbers(f.cols[c]);
      var col := StripColumn(f.cols[c]);
      SetColumnTyped(f, c, col);
      SetColumn(f, c, col)
    else f
  }

  /** The strip loop over the columns cs, in order. */
  function StripColumns(f: Frame, cs: seq<string>): (g: Frame)
    requires f.Valid() && f.Typed()
    ensures g.Valid() && g.Typed() && g.names == f.names && g.nrows == f.nrows && g.cols.Keys == f.cols.Keys
    decreases |cs|
  {
    if cs == [] then f else StripStep(StripColumns(f, cs[..|cs| - 1]), cs[|cs| - 1])
  }

  /** A stripped column is its own strip. */
  lemma StripColumnTwice(col: seq<Cell>)
    requires forall i :: 0 <= i < |col| ==> !col[i].Num?
    ensures StripColumn(StripColumn(col)) == StripColumn(col)
  {
    var once := StripColumn(col);
    forall i | 0 <= i < |col| ensures StripColumn(once)[i] == once[i] {
      StrippedCellFixed(once[i]);
    }
  }

  /** A stripped text cell is its own strip. */
  lemma StrippedCellFixed(c: Cell)
    requires c.Text? && Strip(c.s) == c.s
    ensures StripCell(c) == c
  {
  }

  /** Stripping an object column again changes nothing. */
  lemma StripIfObjectTwice(col: seq<Cell>)
    requires Homogeneous(col)
    ensures Homogeneous(StripIfObject(col)) && StripIfObject(StripIfObject(col)) == StripIfObject(col)
  {
    if IsObject(col) {
      ObjectHasNoNumbers(col);
      StripColumnTwice(col);
      assert IsObject(StripColumn(col)) by {
        assert StripColumn(col)[0].Text?;
      }
    }
  }

  /** One pass of the strip loop touches only its own column. */
  lemma StripStepColumn(f: Frame, c: string, d: string)
    requires f.Valid() && f.Typed() && d in f.cols
    ensures StripStep(f, c).cols[d] == if c == d then StripIfObject(f.cols[d]) else f.cols[d]
  {
  }

  /** The strip loop acts on each column by itself: a column it visits is stripped once, if object. */
  lemma {:induction false} StripColumnsColumn(f: Frame, cs: seq<string>, d: string)
    requires f.Valid() && f.Typed() && d in f.cols
    ensures StripColumns(f, cs).cols[d] == if d in cs then StripIfObject(f.cols[d]) else f.cols[d]
    decreases |cs|
  {
    if cs != [] {
      var pre, c := cs[..|cs| - 1], cs[|cs| - 1];
      assert cs == pre + [c];
      StripColumnsColumn(f, pre, d);
      StripStepColumn(StripColumns(f, pre), c, d);
      if c == d && d in pre {
        StripIfObjectTwice(f.cols[d]);
      }
    }
  }

  /** Coercion keeps a frame typed: coerced columns hold no text at all. */
  lemma CoerceKeepsTyped(f: Frame, cs: seq<string>)
    requires f.Valid() && f.Typed()
    ensures CoerceColumns(f, cs).Typed()
  {
  }

  /** coerce_types, with num_cols the list of numeric columns: the frame it returns. */
  function CoercedTypes(f: Frame, numCols: seq<string>): (g: Frame)
    requires f.Valid() && f.Typed()
    ensures g.Valid() && g.Typed() && g.names == f.names && g.nrows == f.nrows && g.cols.Keys == f.cols.Keys
  {
    var h := CoerceColumns(f, numCols);
    CoerceKeepsTyped(f, numCols);
    StripColumns(h, h.names)
  }

  /** What coerce_types does to column c. */
  function CoercedColumn(numCols: seq<string>, c: string, col: seq<Cell>): (r: seq<Cell>)
    requires Homogeneous(col)
    ensures |r| == |col| && Homogeneous(r)
  {
    if c in numCols then ToNumericCol(col)
    else
      var s := StripIfObject(col);
      assert IsObject(col) ==> forall i :: 0 <= i < |s| ==> !s[i].Num?;
      s
  }

  /** coerce_types treats each column on its own. */
  lemma CoercedTypesColumn(f: Frame, numCols: seq<string>, c: string)
    requires f.Valid() && f.Typed() && c in f.cols
    ensures CoercedTypes(f, numCols).cols[c] == CoercedColumn(numCols, c, f.cols[c])
  {
    var h := CoerceColumns(f, numCols);
    assert c in h.names;
    StripColumnsColumn(h, h.names, c);
    if c in numCols {
      assert !IsObject(h.cols[c]);
    }
  }

  /** The strip loop over one more column is one more StripStep. */
  lemma StripColumnsStep(f: Frame, cs: seq<string>, i: nat)
    requires f.Valid() && f.Typed() && i < |cs|
    ensures StripColumns(f, cs[..i + 1]) == StripStep(StripColumns(f, cs[..i]), cs[i])
  {
    assert cs[..i + 1][..i] == cs[..i];
  }

  /** coerce_types, with its two loops over the frame. */
  method CoerceTypes(df: Frame, numCols: seq<string>) returns (g: Frame)
    requires df.Valid() && df.Typed()
    ensures g == CoercedTypes(df, numCols)
  {
    var h := CoerceNumeric(df, numCols);
    CoerceKeepsTyped(df, numCols);
    g := h;
    for i := 0 to |h.names|
      invariant g == StripColumns(h, h.names[..i])
    {
      var c := h.names[i];
      StripColumnsStep(h, h.names, i);
      if IsObject(g.cols[c]) {
        ObjectHasNoNumbers(g.cols[c]);
        g := SetColumn(g, c, StripColumn(g.cols[c]));
      }
    }
    assert h.names[..|h.names|] == h.names;
  }

  // ---------------------------------------------------------------------
  // Properties of coerce_types

  /**
   * Each numeric column present becomes numeric: numbers and NaN are kept,
   * a string becomes the number it spells or NaN. Every other text column
   * holds stripped strings, NaN printed as "nan"; other columns are unchanged.
   */
  lemma CoercedTypesEffect(f: Frame, numCols: seq<string>, c: string, i: nat)
    requires f.Valid() && f.Typed() && c in f.cols && i < f.nrows
    ensures var g, was := CoercedTypes(f, numCols).cols[c], f.cols[c];
      && (c in numCols ==> IsNumeric(g) && g[i] == ToNumeric(was[i]))
      && (c !in numCols && IsObject(was) ==> g[i] == Text(Strip(AsStr(was[i]))))
      && (c !in numCols && IsObject(was) && was[i].Missing? ==> g[i] == Text("nan"))
      && (c !in numCols && !IsObject(was) ==> g == was)
  {
    CoercedTypesColumn(f, numCols, c);
    var was := f.cols[c];
    if c !in numCols && IsObject(was) {
      ObjectHasNoNumbers(was);
      StripColumnAt(was, i);
    }
  }

  /** Entry i of a stripped column is the stripped text of entry i. */
  lemma StripColumnAt(col: seq<Cell>, i: nat)
    requires (forall k :: 0 <= k < |col| ==> !col[k].Num?) && i < |col|
    ensures StripColumn(col)[i] == Text(Strip(AsStr(col[i])))
  {
  }

  /** A coerced column is its own coercion. */
  lemma CoercedColumnTwice(numCols: seq<string>, c: string, col: seq<Cell>)
    requires Homogeneous(col)
    ensures CoercedColumn(numCols, c, CoercedColumn(numCols, c, col)) == CoercedColumn(numCols, c, col)
  {
    var once := CoercedColumn(numCols, c, col);
    if c !in numCols && IsObject(col) {
      ObjectHasNoNumbers(col);
      StripColumnTwice(col);
      assert IsObject(once) by {
        assert once[0].Text?;
      }
    }
  }

  /** One column of coerce_types applied twice. */
  lemma CoercedTwiceColumn(f: Frame, numCols: seq<string>, c: string)
    requires f.Valid() && f.Typed() && c in f.cols
    ensures CoercedTypes(CoercedTypes(f, numCols), numCols).cols[c] == CoercedTypes(f, numCols).cols[c]
  {
    var g := CoercedTypes(f, numCols);
    CoercedTypesColumn(f, numCols, c);
    CoercedTypesColumn(g, numCols, c);
    CoercedColumnTwice(numCols, c, f.cols[c]);
  }

  /** Running coerce_types on its own output changes nothing. */
  lemma CoercedTypesIdempotent(f: Frame, numCols: seq<string>)
    requires f.Valid() && f.Typed()
    ensures CoercedTypes(CoercedTypes(f, numCols), numCols) == CoercedTypes(f, numCols)
  {
    var g := CoercedTypes(f, numCols);
    var gg := CoercedTypes(g, numCols);
    forall c | c in g.cols ensures gg.cols[c] == g.cols[c] {
      CoercedTwiceColumn(f, numCols, c);
    }
    SameColumns(gg, g);
  }

  // ---------------------------------------------------------------------
  // Dropping the rows without any grade

  /** The three grade columns. */
  predicate HasGrades(f: Frame)
  {
    "G1" in f.cols && "G2" in f.cols && "G3" in f.cols
  }

  /** G1, G2 and G3 are all NaN in row i. */
  predicate Ungraded(f: Frame, i: nat)
    requires f.Valid() && HasGrades(f) && i < f.nrows
  {
    f.cols["G1"][i].Missing? && f.cols["G2"][i].Missing? && f.cols["G3"][i].Missing?
  }

  /** ~(G1.isna() & G2.isna() & G3.isna()) */
  function KeepMask(f: Frame): (keep: seq<bool>)
    requires f.Valid() && HasGrades(f)
    ensures |keep| == f.nrows
  {
    seq(f.nrows, i requires 0 <= i < f.nrows => !Ungraded(f, i))
  }

  /** The filter of process, applied only when all three grade columns exist. */
  function DropUngraded(f: Frame): (g: Frame)
    requires f.Valid()
    ensures g.Valid() && g.names == f.names && g.cols.Keys == f.cols.Keys && g.nrows <= f.nrows
  {
    if HasGrades(f) then FilterRows(f, KeepMask(f)) else f
  }

  /** The frame process exports. */
  function Cleaned(f: Frame): Frame
    requires f.Valid() && f.Typed()
  {
    DropUngraded(CoercedTypes(f, NumCols))
  }

  /** process, without the file I/O. */
  method Process(df: Frame) returns (g: Frame)
    requires df.Valid() && df.Typed()
    ensures g == Cleaned(df)
  {
    g := CoerceTypes(df, NumCols);
    if HasGrades(g) {
      g := FilterRows(g, KeepMask(g));
    }
  }

  /** The rows process keeps are the input's rows under the mask, in order. */
  lemma DroppedRows(f: Frame)
    requires f.Valid() && HasGrades(f)
    ensures Rows(DropUngraded(f)) == Select(Rows(f), KeepMask(f))
  {
    FilterRowsRows(f, KeepMask(f));
  }

  /** Every row with some grade survives, at the position given by the graded rows before it. */
  lemma GradedRowKept(f: Frame, i: nat)
    requires f.Valid() && HasGrades(f) && i < f.nrows && !Ungraded(f, i)
    ensures var g, keep := DropUngraded(f), KeepMask(f);
      CountTrue(keep[..i]) < g.nrows && Row(g, CountTrue(keep[..i])) == Row(f, i)
  {
    var g, keep := DropUngraded(f), KeepMask(f);
    DroppedRows(f);
    SelectPosition(Rows(f), keep, i);
    assert Row(g, CountTrue(keep[..i])) == Rows(g)[CountTrue(keep[..i])];
  }

  /** Every row that survives is a row of the input with some grade. */
  lemma KeptRowGraded(f: Frame, k: nat)
    requires f.Valid() && HasGrades(f) && k < DropUngraded(f).nrows
    ensures exists i :: 0 <= i < f.nrows && !Ungraded(f, i) && Row(DropUngraded(f), k) == Row(f, i)
  {
    var g, keep := DropUngraded(f), KeepMask(f);
    DroppedRows(f);
    var i := KthKept(keep, k);
    SelectAt(Rows(f), keep, k);
    assert keep[i] && Row(g, k) == Rows(g)[k] == Row(f, i);
  }

  /** Without all three grade columns no row is dropped. */
  lemma NoDropWithoutGrades(f: Frame)
    requires f.Valid() && !HasGrades(f)
    ensures DropUngraded(f) == f
  {
  }

  /** A frame whose rows all have some grade loses nothing. */
  lemma NothingToDrop(f: Frame)
    requires f.Valid() && HasGrades(f)
    requires forall i :: 0 <= i < f.nrows ==> !Ungraded(f, i)
    ensures Rows(DropUngraded(f)) == Rows(f)
  {
    DroppedRows(f);
    SelectAll(Rows(f), KeepMask(f));
  }

  lemma {:induction false} SelectAll<T>(s: seq<T>, keep: seq<bool>)
    requires |keep| == |s| && forall i :: 0 <= i < |keep| ==> keep[i]
    ensures Select(s, keep) == s
  {
    if s != [] {
      var n := |s| - 1;
      SelectAll(s[..n], keep[..n]);
      assert s == s[..n] + [s[n]];
    }
  }
}
