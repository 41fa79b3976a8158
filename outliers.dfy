/**
 * The outlier scan of scripts/outlier_check.py: per numeric column, the IQR
 * fences (k = 1.5) and the count of values outside them, the count of values
 * with |z| >= 3 (population std), and the suggested caps it writes for every
 * column with at least one IQR outlier. No frame is modified.
 */
module Outliers {
  import opened Wrappers
  import opened Cells
  import opened Frames
  import opened Statistics
  import opened Json
  import opened CapPolicy

  /** The IQR multiplier k of iqr_bounds. */
  const K: real := 1.5

  /** The IQR fences of a column. */
  datatype Bounds = Bounds(low: real, high: real)

  /**
   * iqr_bounds over the sorted numbers of a column: Q1 - k*IQR and Q3 + k*IQR.
   * The fences enclose the quartiles and the median.
   */
  function IqrBounds(v: seq<real>): (b: Bounds)
    requires |v| > 0 && Sorted(v)
    ensures b.low <= Quantile(v, 0.25) <= Quantile(v, 0.5) <= Quantile(v, 0.75) <= b.high
  {
    var q1, q3 := Quantile(v, 0.25), Quantile(v, 0.75);
    QuantileMonotone(v, 0.25, 0.5);
    QuantileMonotone(v, 0.5, 0.75);
    Bounds(q1 - K * (q3 - q1), q3 + K * (q3 - q1))
  }

  /** The fences of a coerced column; None when it holds no number (pandas gives NaN). */
  function ColumnBounds(col: seq<Cell>): (b: Option<Bounds>)
    ensures b.Some? <==> Values(col) != []
  {
    var v := Values(col);
    if v == [] then None else Some(IqrBounds(Sort(v)))
  }

  /** (s < lo) | (s > hi): false for NaN cells and for NaN fences. */
  predicate IqrOutlier(c: Cell, b: Option<Bounds>)
  {
    b.Some? && c.Num? && (c.x < b.value.low || c.x > b.value.high)
  }

  function IqrCount(col: seq<Cell>): nat
  {
    var b := ColumnBounds(col);
    CountWhere(col, (c: Cell) => IqrOutlier(c, b))
  }

  /**
   * |z| >= 3 without the square root: (x - m)^2 >= 9 * var. z_scores returns
   * zeros when the std is 0, so a zero variance marks nothing.
   */
  predicate ZOutlier(c: Cell, m: real, variance: real)
  {
    variance > 0.0 && c.Num? && Square(c.x - m) >= 9.0 * variance
  }

  /** n_z_outliers; an all-NaN column has a NaN std, hence all zeros. */
  function ZCount(col: seq<Cell>): nat
  {
    var v := Values(col);
    if v == [] then 0
    else
      var m, variance := Mean(v), Variance(v);
      CountWhere(col, (c: Cell) => ZOutlier(c, m, variance))
  }

  // ---------------------------------------------------------------------
  // The z rule

  lemma MulLess(a: real, b: real, c: real)
    requires a > 0.0 && b < c
    ensures a * b < a * c
  {
  }

  /** For sd > 0: |d / sd| >= 3 exactly when |d| >= 3 * sd. */
  lemma DivideByStd(d: real, sd: real)
    requires sd > 0.0
    ensures Abs(d / sd) >= 3.0 <==> Abs(d) >= 3.0 * sd
  {
    var q := d / sd;
    assert d == q * sd;
    if Abs(q) >= 3.0 {
      MulLeft(sd, 3.0, Abs(q));
      assert Abs(d) == Abs(q) * sd;
    } else {
      MulLess(sd, Abs(q), 3.0);
      assert Abs(d) == Abs(q) * sd;
    }
  }

  /**
   * ZOutlier agrees with the script's test |(x - m) / sd| >= 3.0 for every
   * positive sd whose square is the variance.
   */
  lemma ZRule(x: real, m: real, sd: real)
    requires sd > 0.0
    ensures Abs((x - m) / sd) >= ZThreshold <==> ZOutlier(Num(x), m, sd * sd)
  {
    var d := x - m;
    DivideByStd(d, sd);
    AbsSquare(d);
    PositiveProduct(sd, sd);
    var a, b := Abs(d), 3.0 * sd;
    assert b * b == 9.0 * (sd * sd);
    assert Square(d) == a * a;
    SquareMonotone(b, a);
    SquareMonotone(a, b);
  }

  /** The z_threshold the report records. */
  const ZThreshold: real := 3.0

  // ---------------------------------------------------------------------
  // Properties of the two rules

  /** An IQR outlier lies outside the quartiles; the median never is one. */
  lemma IqrOutlierOutsideQuartiles(col: seq<Cell>, i: nat)
    requires i < |col| && IqrOutlier(col[i], ColumnBounds(col))
    ensures var v := Sort(Values(col));
      |v| > 0 && (col[i].x < Quantile(v, 0.25) || col[i].x > Quantile(v, 0.75))
  {
  }

  /** The IQR count is positive exactly when some number lies outside the fences. */
  lemma IqrCountPositive(col: seq<Cell>)
    ensures IqrCount(col) > 0 <==>
      (ColumnBounds(col).Some? &&
       exists i :: 0 <= i < |col| && col[i].Num? &&
         (col[i].x < ColumnBounds(col).value.low || col[i].x > ColumnBounds(col).value.high))
  {
    var b := ColumnBounds(col);
    CountWherePositive(col, (c: Cell) => IqrOutlier(c, b));
  }

  /** The numbers of a column whose numbers all equal c form a constant sequence. */
  lemma ConstantValues(col: seq<Cell>, c: real)
    requires forall i :: 0 <= i < |col| && col[i].Num? ==> col[i].x == c
    ensures Constant(Values(col), c)
  {
    var v := Values(col);
    forall i | 0 <= i < |v| ensures v[i] == c {
      ValuesMembers(col, v[i]);
    }
  }

  lemma SortConstant(v: seq<real>, c: real)
    requires Constant(v, c)
    ensures Constant(Sort(v), c)
  {
    var s := Sort(v);
    forall i | 0 <= i < |s| ensures s[i] == c {
      assert s[i] in multiset(v);
    }
  }

  /**
   * A column whose numbers are all c has fences (c, c) and no outlier by
   * either rule.
   */
  lemma ConstantColumnHasNoOutliers(col: seq<Cell>, c: real)
    requires exists i :: 0 <= i < |col| && col[i] == Num(c)
    requires forall i :: 0 <= i < |col| && col[i].Num? ==> col[i].x == c
    ensures ColumnBounds(col) == Some(Bounds(c, c))
    ensures IqrCount(col) == 0 && ZCount(col) == 0
  {
    var v := Values(col);
    ValuesMembers(col, c);
    ConstantValues(col, c);
    SortConstant(v, c);
    var s := Sort(v);
    QuantileWithin(s, 0.25);
    QuantileWithin(s, 0.75);
    assert Quantile(s, 0.25) == c && Quantile(s, 0.75) == c;
    var b := ColumnBounds(col);
    assert b == Some(Bounds(c, c));
    IqrCountPositive(col);
    ConstantHasNoVariance(v, c);
    var m, variance := Mean(v), Variance(v);
    CountWherePositive(col, (x: Cell) => ZOutlier(x, m, variance));
  }

  /** The counts never exceed the number of numbers in the column. */
  lemma CountsBounded(col: seq<Cell>)
    ensures IqrCount(col) <= |Values(col)| && ZCount(col) <= |Values(col)|
  {
    var b := ColumnBounds(col);
    ValuesCount(col);
    CountWhereMono(col, (c: Cell) => IqrOutlier(c, b), (c: Cell) => c.Num?);
    var v := Values(col);
    if v != [] {
      var m, variance := Mean(v), Variance(v);
      CountWhereMono(col, (c: Cell) => ZOutlier(c, m, variance), (c: Cell) => c.Num?);
    }
  }

  // ---------------------------------------------------------------------
  // scan_df

  /** summary["columns"][c]; min and max are None where pandas gives NaN. */
  datatype ColumnSummary = ColumnSummary(min: Option<real>, max: Option<real>, bounds: Option<Bounds>, nIqr: nat, nZ: nat)

  /** The summary of one column after pd.to_numeric(errors="coerce"). */
  function Summarize(raw: seq<Cell>): (s: ColumnSummary)
    ensures s.nIqr > 0 ==> s.bounds.Some?
    ensures s.min.Some? <==> s.bounds.Some?
    ensures s.min.Some? <==> s.max.Some?
    ensures s.min.Some? ==> s.min.value <= s.max.value
    ensures s.nIqr <= |raw| && s.nZ <= |raw|
  {
    var col := ToNumericCol(raw);
    var v := Values(col);
    CountsBounded(col);
    var b := ColumnBounds(col);
    assert b.None? ==> IqrCount(col) == 0 by {
      if b.None? {
        IqrCountPositive(col);
      }
    }
    if v == [] then ColumnSummary(None, None, b, IqrCount(col), ZCount(col))
    else ColumnSummary(Some(Min(v)), Some(Max(v)), b, IqrCount(col), ZCount(col))
  }

  /** summary["columns"]: one entry per numeric column present in the frame. */
  function ScanColumns(df: Frame): map<string, ColumnSummary>
  {
    map c | c in NumCols && c in df.cols :: Summarize(df.cols[c])
  }

  /**
   * The basic-stats loop of scan_df indexes describe()'s "min", "25%", ...,
   * which an object column's describe() lacks: it raises KeyError unless every
   * numeric column present holds no text.
   */
  predicate Describable(df: Frame)
  {
    forall i :: 0 <= i < |NumCols| && NumCols[i] in df.cols ==> IsNumeric(df.cols[NumCols[i]])
  }

  /** scan_df: Err when the basic-stats loop raises, otherwise the summary of the outlier loop. */
  method ScanDf(df: Frame) returns (r: Result<map<string, ColumnSummary>>)
    ensures r.Err? <==> !Describable(df)
    ensures r.Ok? ==> r.value == ScanColumns(df)
  {
    for i := 0 to |NumCols|
      invariant forall j :: 0 <= j < i && NumCols[j] in df.cols ==> IsNumeric(df.cols[NumCols[j]])
    {
      var c := NumCols[i];
      if c in df.cols && IsObject(df.cols[c]) {
        return Err;
      }
    }
    var summary := map[];
    for i := 0 to |NumCols|
      invariant forall c :: c in summary <==> c in NumCols[..i] && c in df.cols
      invariant forall c :: c in summary ==> summary[c] == Summarize(df.cols[c])
    {
      var c := NumCols[i];
      assert NumCols[..i + 1] == NumCols[..i] + [c];
      if c in df.cols {
        summary := summary[c := Summarize(df.cols[c])];
      }
    }
    assert NumCols[..|NumCols|] == NumCols;
    r := Ok(summary);
  }

  // ---------------------------------------------------------------------
  // proposed caps

  /** Every summary the scan produces has fences where it counts IQR outliers. */
  predicate Consistent(summary: map<string, ColumnSummary>)
  {
    forall c :: c in summary ==> (summary[c].nIqr > 0 ==> summary[c].bounds.Some?)
  }

  lemma ScanIsConsistent(df: Frame)
    ensures Consistent(ScanColumns(df))
  {
  }

  /** `proposed`: the fences of each column with at least one IQR outlier. */
  function ProposedCaps(summary: map<string, ColumnSummary>): (p: map<string, Bounds>)
    requires Consistent(summary)
    ensures forall c :: c in p <==> c in summary && summary[c].nIqr > 0
    ensures forall c :: c in p ==> Some(p[c]) == summary[c].bounds
  {
    map c | c in summary && summary[c].nIqr > 0 :: summary[c].bounds.value
  }

  /** The JSON object {"low_cap": low, "high_cap": high}. */
  function CapsJson(b: Bounds): Json
  {
    JObj(map["low_cap" := JNum(b.low), "high_cap" := JNum(b.high)])
  }

  function ProposedJson(p: map<string, Bounds>): Json
  {
    JObj(map c | c in p :: CapsJson(p[c]))
  }

  /** The caps proposed for one dataset file. */
  function ProposedFor(df: Frame): map<string, Bounds>
  {
    ScanIsConsistent(df);
    ProposedCaps(ScanColumns(df))
  }

  /** The proposals for the datasets ks that have a file. */
  function SuggestionMap(files: map<string, Frame>, ks: seq<string>): map<string, Json>
  {
    map k | k in ks && k in files :: ProposedJson(ProposedFor(files[k]))
  }

  /** Every dataset of ks whose file exists can be scanned. */
  predicate AllDescribable(files: map<string, Frame>, ks: seq<string>)
  {
    forall i :: 0 <= i < |ks| && ks[i] in files ==> Describable(files[ks[i]])
  }

  /** caps_suggestion once the loop is done; a missing file is skipped. */
  function Written(files: map<string, Frame>): Json
  {
    JObj(SuggestionMap(files, Datasets))
  }

  /**
   * What main writes to proposed_caps.json: Err when scan_df raises for some
   * dataset, in which case main stops before writing anything.
   */
  function Suggestions(files: map<string, Frame>): Result<Json>
  {
    if AllDescribable(files, Datasets) then Ok(Written(files)) else Err
  }

  /** A text entry in a numeric column of any existing dataset stops the whole scan. */
  lemma ObjectColumnStopsScan(files: map<string, Frame>, k: string, c: string)
    requires k in Datasets && k in files && c in NumCols && c in files[k].cols
    requires IsObject(files[k].cols[c])
    ensures Suggestions(files) == Err
  {
    var i :| 0 <= i < |Datasets| && Datasets[i] == k;
    var j :| 0 <= j < |NumCols| && NumCols[j] == c;
    assert !IsNumeric(files[k].cols[NumCols[j]]);
  }

  /** With no text in any numeric column, main writes a proposal for every existing dataset and no other. */
  lemma SuggestionsWritten(files: map<string, Frame>)
    requires forall k, c :: k in files && c in files[k].cols && c in NumCols ==> IsNumeric(files[k].cols[c])
    ensures Suggestions(files).Ok?
    ensures Suggestions(files).value.JObj?
    ensures forall k :: k in Suggestions(files).value.fields <==> k in Datasets && k in files
    ensures forall k :: k in Datasets && k in files ==>
      Suggestions(files).value.fields[k] == ProposedJson(ProposedFor(files[k]))
  {
    forall i | 0 <= i < |Datasets| && Datasets[i] in files
      ensures Describable(files[Datasets[i]])
    {
      var df := files[Datasets[i]];
      forall j | 0 <= j < |NumCols| && NumCols[j] in df.cols
        ensures IsNumeric(df.cols[NumCols[j]])
      {
        assert NumCols[j] in NumCols;
      }
    }
  }

  /** The describable prefix of ks grows by one dataset. */
  lemma AllDescribableStep(files: map<string, Frame>, ks: seq<string>, i: int)
    requires 0 <= i < |ks| && AllDescribable(files, ks[..i])
    requires ks[i] in files ==> Describable(files[ks[i]])
    ensures AllDescribable(files, ks[..i + 1])
  {
    forall j | 0 <= j < i + 1 && ks[j] in files
      ensures Describable(files[ks[j]])
    {
      if j < i {
        assert ks[j] == ks[..i][j];
      }
    }
  }

  /** One existing dataset that cannot be scanned makes the whole list fail. */
  lemma NotDescribableFails(files: map<string, Frame>, ks: seq<string>, i: int)
    requires 0 <= i < |ks| && ks[i] in files && !Describable(files[ks[i]])
    ensures !AllDescribable(files, ks)
  {
  }

  /** One more dataset adds its proposal when its file is there. */
  lemma SuggestionMapStep(files: map<string, Frame>, ks: seq<string>, i: nat)
    requires i < |ks|
    ensures SuggestionMap(files, ks[..i + 1]) ==
      if ks[i] in files then SuggestionMap(files, ks[..i])[ks[i] := ProposedJson(ProposedFor(files[ks[i]]))]
      else SuggestionMap(files, ks[..i])
  {
    assert ks[..i + 1] == ks[..i] + [ks[i]];
  }

  /** The loop of main over FILES. */
  method SuggestCaps(files: map<string, Frame>) returns (sugg: Result<Json>)
    ensures sugg == Suggestions(files)
  {
    var suggestion := map[];
    for i := 0 to |Datasets|
      invariant suggestion == SuggestionMap(files, Datasets[..i])
      invariant AllDescribable(files, Datasets[..i])
    {
      var key := Datasets[i];
      SuggestionMapStep(files, Datasets, i);
      if key in files {
        var summary := ScanDf(files[key]);
        if summary.Err? {
          NotDescribableFails(files, Datasets, i);
          return Err;
        }
        ScanIsConsistent(files[key]);
        var proposed := ProposedCaps(summary.value);
        suggestion := suggestion[key := ProposedJson(proposed)];
      }
      AllDescribableStep(files, Datasets, i);
    }
    assert Datasets[..|Datasets|] == Datasets;
    sugg := Ok(JObj(suggestion));
  }

  // ---------------------------------------------------------------------
  // From the scan to the cap policy

  /**
   * Loading the file the scan writes into DEFAULT_CAPS never raises; each
   * dataset's absences caps become the suggested fences when the scan found
   * IQR outliers in absences, and stay the defaults otherwise.
   */
  lemma SuggestionsFeedCaps(files: map<string, Frame>)
    requires Suggestions(files).Ok?
    ensures var sugg := Suggestions(files).value;
      var r := MergeKeys(DefaultCaps(), Datasets, sugg);
      && !r.failed
      && r.caps.Keys == DefaultCaps().Keys
      && forall k :: k in Datasets ==>
           Absences in r.caps[k] &&
           r.caps[k][Absences] ==
             if k in files && Absences in ProposedFor(files[k])
             then CapPair(JNum(ProposedFor(files[k])[Absences].low), JNum(ProposedFor(files[k])[Absences].high))
             else DefaultCaps()[k][Absences]
  {
    var sugg := Suggestions(files).value;
    SuggestionsWellShaped(files);
    assert HasAbsences(DefaultCaps(), Datasets);
    assert Distinct(Datasets);
    MergeWellShaped(DefaultCaps(), Datasets, sugg);
    forall k | k in Datasets {
      MergedProposed(files, k);
    }
  }

  /** The suggestion file is an object of objects, one per dataset scanned. */
  lemma SuggestionsWellShaped(files: map<string, Frame>)
    ensures WellShaped(Written(files), Datasets)
  {
  }

  /** Merging the suggestion for dataset k into its default absences caps. */
  lemma MergedProposed(files: map<string, Frame>, k: string)
    requires k in Datasets
    ensures Merged(DefaultCaps()[k][Absences], Written(files), k) ==
      if k in files && Absences in ProposedFor(files[k])
      then CapPair(JNum(ProposedFor(files[k])[Absences].low), JNum(ProposedFor(files[k])[Absences].high))
      else DefaultCaps()[k][Absences]
  {
    var sugg := Written(files);
    if k in files {
      var p := ProposedFor(files[k]);
      assert sugg.fields[k] == ProposedJson(p);
      if Absences in p {
        var s := ProposedJson(p).fields[Absences].fields;
        assert s == CapsJson(p[Absences]).fields;
        assert "low_cap" in s && "high_cap" in s;
      }
    } else {
      assert k !in sugg.fields;
    }
  }

  /** The suggested fences are ordered, so capping with them bounds the column. */
  lemma ProposedOrdered(df: Frame, c: string)
    requires c in ProposedFor(df)
    ensures ProposedFor(df)[c].low <= ProposedFor(df)[c].high
  {
    ScanIsConsistent(df);
    var col := ToNumericCol(df.cols[c]);
    var v := Values(col);
    assert v != [];
  }

  // ---------------------------------------------------------------------
  // A worked column

  /** [1, 2, 3, 4, 100]: Q1 = 2, Q3 = 4, fences -1 and 7, and only 100 is an IQR outlier. */
  lemma WorkedColumn()
    ensures var col := [Num(1.0), Num(2.0), Num(3.0), Num(4.0), Num(100.0)];
      && ColumnBounds(col) == Some(Bounds(-1.0, 7.0))
      && IqrCount(col) == 1
  {
    WorkedBounds();
    WorkedCount(Some(Bounds(-1.0, 7.0)));
  }

  lemma WorkedBounds()
    ensures ColumnBounds([Num(1.0), Num(2.0), Num(3.0), Num(4.0), Num(100.0)]) == Some(Bounds(-1.0, 7.0))
  {
    var v := [1.0, 2.0, 3.0, 4.0, 100.0];
    WorkedValues();
    WorkedSort();
    BoundsOfSortedValues([Num(1.0), Num(2.0), Num(3.0), Num(4.0), Num(100.0)], v);
    WorkedFences();
  }

  lemma WorkedSort()
    ensures Sort([1.0, 2.0, 3.0, 4.0, 100.0]) == [1.0, 2.0, 3.0, 4.0, 100.0]
  {
    SortOfSorted([1.0, 2.0, 3.0, 4.0, 100.0]);
  }

  lemma BoundsOfSortedValues(col: seq<Cell>, v: seq<real>)
    requires Values(col) == v && |v| > 0 && Sort(v) == v
    ensures ColumnBounds(col) == Some(IqrBounds(v))
  {
  }

  lemma WorkedFences()
    ensures IqrBounds([1.0, 2.0, 3.0, 4.0, 100.0]) == Bounds(-1.0, 7.0)
  {
    WorkedQuartiles();
  }

  lemma WorkedCount(b: Option<Bounds>)
    requires b == Some(Bounds(-1.0, 7.0))
    ensures CountWhere([Num(1.0), Num(2.0), Num(3.0), Num(4.0), Num(100.0)], (c: Cell) => IqrOutlier(c, b)) == 1
  {
    var col := [Num(1.0), Num(2.0), Num(3.0), Num(4.0), Num(100.0)];
    var p := (c: Cell) => IqrOutlier(c, b);
    var init := col[..4];
    CountWherePositive(init, p);
    assert forall i :: 0 <= i < |init| ==> !p(init[i]);
  }

  lemma WorkedValues()
    ensures Values([Num(1.0), Num(2.0), Num(3.0), Num(4.0), Num(100.0)]) == [1.0, 2.0, 3.0, 4.0, 100.0]
  {
    var c1 := [Num(1.0)];
    var c2 := c1 + [Num(2.0)];
    var c3 := c2 + [Num(3.0)];
    var c4 := c3 + [Num(4.0)];
    var c5 := c4 + [Num(100.0)];
    assert c2[..1] == c1 && c3[..2] == c2 && c4[..3] == c3 && c5[..4] == c4;
    assert Values(c1) == [1.0];
    assert Values(c2) == [1.0, 2.0];
    assert Values(c3) == [1.0, 2.0, 3.0];
    assert Values(c4) == [1.0, 2.0, 3.0, 4.0];
    assert Values(c5) == [1.0, 2.0, 3.0, 4.0, 100.0];
    assert c5 == [Num(1.0), Num(2.0), Num(3.0), Num(4.0), Num(100.0)];
  }

  lemma WorkedQuartiles()
    ensures Quantile([1.0, 2.0, 3.0, 4.0, 100.0], 0.25) == 2.0
    ensures Quantile([1.0, 2.0, 3.0, 4.0, 100.0], 0.75) == 4.0
  {
    assert Position(5, 0.25) == 1.0;
    assert Position(5, 0.75) == 3.0;
  }
}
