/**
 * The value-level checks of scripts/qc_check.py on the raw student files:
 * placeholder tokens in text columns, fully duplicate rows, expected numeric
 * ranges and a sorted sample of the distinct values of each text column. Every
 * violation appends to the module-level issues list, and a non-empty list at
 * the end makes the process exit with status 1.
 */
module Qc {
  import opened Wrappers
  import opened Cells
  import opened Frames
  import opened StringOrder

  // ---------------------------------------------------------------------
  // Placeholder tokens

  /** The tokens that look like a missing value written out as text. */
  const Placeholders: set<string> := {"?", "NA", "N/A", "None", "Unknown", "unknown", ""}

  /** (s == tok).sum() for s = col.astype(str).str.strip(), over an object column. */
  function TokenCount(col: seq<Cell>, tok: string): nat
  {
    CountWhere(col, IsToken(tok))
  }

  /** An entry of an object column whose printed, stripped form is tok. */
  function IsToken(tok: string): Cell -> bool
  {
    (c: Cell) => !c.Num? && Strip(AsStr(c)) == tok
  }

  /** `found`: the placeholder tokens that occur, with their counts. */
  function Hits(col: seq<Cell>): map<string, nat>
  {
    map tok | tok in Placeholders && TokenCount(col, tok) > 0 :: TokenCount(col, tok)
  }

  /** One line of `hits`: an object column and the tokens found in it. */
  datatype ColumnHits = ColumnHits(column: string, found: map<string, nat>)

  /** Column c is an object column in which some placeholder occurs. */
  predicate HasHits(df: Frame, c: string)
  {
    c in df.cols && IsObject(df.cols[c]) && Hits(df.cols[c]) != map[]
  }

  /** `hits` over the columns cs, in order. */
  function HitColumns(df: Frame, cs: seq<string>): (h: seq<ColumnHits>)
    ensures |h| <= |cs|
  {
    if cs == [] then []
    else
      var c := cs[|cs| - 1];
      HitColumns(df, cs[..|cs| - 1]) + (if HasHits(df, c) then [ColumnHits(c, Hits(df.cols[c]))] else [])
  }

  /**
   * A token is reported for a column exactly when it is a placeholder and some
   * entry strips to it; its count is the number of such entries.
   */
  lemma HitsExactly(col: seq<Cell>, tok: string)
    ensures tok in Hits(col) <==>
      tok in Placeholders && exists i :: 0 <= i < |col| && !col[i].Num? && Strip(AsStr(col[i])) == tok
    ensures tok in Hits(col) ==> Hits(col)[tok] == |IndicesWhere(col, IsToken(tok))|
  {
    CountWherePositive(col, IsToken(tok));
    CountWhereIsCardinality(col, IsToken(tok));
  }

  /** A NaN entry of an object column prints as "nan", which is not a placeholder. */
  lemma MissingIsNoPlaceholder()
    ensures Strip(AsStr(Missing)) !in Placeholders
  {
    var s := AsStr(Missing);
    assert s == "nan";
    StripUnpadded(s);
  }

  /** Column c has a line in h. */
  predicate Reported(h: seq<ColumnHits>, c: string)
  {
    exists j :: 0 <= j < |h| && h[j].column == c
  }

  /** A column reports hits exactly when some entry strips to a placeholder. */
  lemma {:induction false} HitColumnsExactly(df: Frame, cs: seq<string>, c: string)
    ensures Reported(HitColumns(df, cs), c) <==> c in cs && HasHits(df, c)
  {
    if cs != [] {
      var n := |cs| - 1;
      var last := cs[n];
      HitColumnsExactly(df, cs[..n], c);
      assert cs == cs[..n] + [last];
      var init := HitColumns(df, cs[..n]);
      var piece := if HasHits(df, last) then [ColumnHits(last, Hits(df.cols[last]))] else [];
      var h := HitColumns(df, cs);
      assert h == init + piece;
      if Reported(h, c) {
        var j :| 0 <= j < |h| && h[j].column == c;
        if j < |init| {
          assert init[j].column == c;
        }
      }
      if c in cs && HasHits(df, c) {
        if c == last {
          assert h[|init|].column == c;
        } else {
          assert c in cs[..n];
          var j :| 0 <= j < |init| && init[j].column == c;
          assert h[j].column == c;
        }
      }
    }
  }

  /** The placeholder loop of check_file, building `hits`. */
  method PlaceholderHits(df: Frame) returns (hits: seq<ColumnHits>)
    requires df.Valid()
    ensures hits == HitColumns(df, df.names)
  {
    hits := [];
    for i := 0 to |df.names|
      invariant hits == HitColumns(df, df.names[..i])
    {
      var c := df.names[i];
      assert df.names[..i + 1] == df.names[..i] + [c];
      if HasHits(df, c) {
        hits := hits + [ColumnHits(c, Hits(df.cols[c]))];
      }
    }
    assert df.names[..|df.names|] == df.names;
  }

  // ---------------------------------------------------------------------
  // Duplicate rows

  /** df.duplicated().sum(): rows equal to an earlier row, NaN equal to NaN. */
  function DupCount(rows: seq<seq<Cell>>): nat
  {
    if rows == [] then 0
    else
      var n := |rows| - 1;
      DupCount(rows[..n]) + (if rows[n] in rows[..n] then 1 else 0)
  }

  function Distinct(rows: seq<seq<Cell>>): set<seq<Cell>>
  {
    set r | r in rows
  }

  /** The duplicates and the distinct rows together account for every row. */
  lemma {:induction false} DupCountPlusDistinct(rows: seq<seq<Cell>>)
    ensures DupCount(rows) + |Distinct(rows)| == |rows|
  {
    if rows != [] {
      var n := |rows| - 1;
      var init := rows[..n];
      DupCountPlusDistinct(init);
      assert rows == init + [rows[n]];
      assert Distinct(rows) == Distinct(init) + {rows[n]};
      if rows[n] in init {
        assert rows[n] in Distinct(init);
        assert Distinct(rows) == Distinct(init);
      } else {
        assert rows[n] !in Distinct(init);
      }
    }
  }

  /** No duplicates exactly when no two rows are equal. */
  lemma {:induction false} NoDuplicates(rows: seq<seq<Cell>>)
    ensures DupCount(rows) == 0 <==> forall i, j :: 0 <= i < j < |rows| ==> rows[i] != rows[j]
  {
    if rows != [] {
      var n := |rows| - 1;
      NoDuplicates(rows[..n]);
      if DupCount(rows) == 0 {
        forall i, j | 0 <= i < j < |rows| ensures rows[i] != rows[j] {
          if j == n {
            assert rows[i] == rows[..n][i];
          } else {
            assert rows[i] == rows[..n][i] && rows[j] == rows[..n][j];
          }
        }
      }
      if rows[n] in rows[..n] {
        var i :| 0 <= i < n && rows[..n][i] == rows[n];
        assert rows[i] == rows[n];
      }
      if forall i, j :: 0 <= i < j < |rows| ==> rows[i] != rows[j] {
        forall i, j | 0 <= i < j < n ensures rows[..n][i] != rows[..n][j] {
          assert rows[i] != rows[j];
        }
      }
    }
  }

  // ---------------------------------------------------------------------
  // Expected ranges

  /** An expected range; None means that side is not checked. */
  datatype Range = Range(column: string, lo: Option<real>, hi: Option<real>)

  /** expected_ranges, in its iteration order. */
  const ExpectedRanges: seq<Range> := [
    Range("G1", Some(0.0), Some(20.0)),
    Range("G2", Some(0.0), Some(20.0)),
    Range("G3", Some(0.0), Some(20.0)),
    Range("absences", Some(0.0), None),
    Range("age", Some(10.0), Some(30.0))
  ]

  /** lo_bad | hi_bad for one entry: NaN compares false on both sides. */
  predicate OutOfRange(c: Cell, r: Range)
  {
    c.Num? && ((r.lo.Some? && c.x < r.lo.value) || (r.hi.Some? && c.x > r.hi.value))
  }

  /** n_bad; comparing a column that holds a string with a number raises TypeError. */
  function CountOutOfRange(col: seq<Cell>, r: Range): (n: Result<nat>)
    ensures n.Err? <==> IsObject(col)
  {
    if IsObject(col) then Err else Ok(CountWhere(col, (c: Cell) => OutOfRange(c, r)))
  }

  /** The endpoints themselves are in range, and NaN is never out of range. */
  lemma EndpointsInRange(r: Range)
    ensures r.lo.Some? && (r.hi.None? || r.lo.value <= r.hi.value) ==> !OutOfRange(Num(r.lo.value), r)
    ensures r.hi.Some? && (r.lo.None? || r.lo.value <= r.hi.value) ==> !OutOfRange(Num(r.hi.value), r)
    ensures !OutOfRange(Missing, r)
  {
  }

  /** absences has no upper bound: only negative counts are out of range. */
  lemma AbsencesOnlyBelowZero(c: Cell)
    ensures OutOfRange(c, ExpectedRanges[3]) <==> c.Num? && c.x < 0.0
  {
  }

  /** The issues a run has collected, and whether an exception ended it. */
  datatype Outcome = Outcome(issues: seq<Issue>, crashed: bool)

  datatype Issue =
    | MissingFile(path: string)
    | ReadFailed(file: string)
    | PlaceholderTokens(file: string)
    | DuplicateRows(file: string, count: nat)
    | OutOfRangeValues(file: string, column: string, count: nat)

  /** The issues collected earlier, followed by an outcome. */
  function After(earlier: seq<Issue>, o: Outcome): Outcome
  {
    Outcome(earlier + o.issues, o.crashed)
  }

  /** The ranges loop: one issue per present column with n_bad > 0; a TypeError stops it. */
  function RangeIssues(name: string, df: Frame, rs: seq<Range>): Outcome
  {
    if rs == [] then Outcome([], false)
    else
      var r := rs[0];
      if r.column !in df.cols then RangeIssues(name, df, rs[1..])
      else
        match CountOutOfRange(df.cols[r.column], r)
        case Err => Outcome([], true)
        case Ok(n) =>
          After(if n > 0 then [OutOfRangeValues(name, r.column, n)] else [], RangeIssues(name, df, rs[1..]))
  }

  /** RangeIssues over the ranges from the k-th on, unfolded once. */
  lemma RangeStep(name: string, df: Frame, rs: seq<Range>, k: nat)
    requires k < |rs|
    ensures var r, rest := rs[k], RangeIssues(name, df, rs[k + 1..]);
      RangeIssues(name, df, rs[k..]) ==
        if r.column !in df.cols then rest
        else match CountOutOfRange(df.cols[r.column], r)
          case Err => Outcome([], true)
          case Ok(n) => After(if n > 0 then [OutOfRangeValues(name, r.column, n)] else [], rest)
  {
    assert rs[k..][0] == rs[k] && rs[k..][1..] == rs[k + 1..];
  }

  /** Issues collected in two stages are the concatenation of both. */
  lemma AfterAfter(a: seq<Issue>, b: seq<Issue>, o: Outcome)
    ensures After(a, After(b, o)) == After(a + b, o)
  {
    assert a + (b + o.issues) == (a + b) + o.issues;
  }

  /** The issues check_file appends for a file it could read. */
  function FileOutcome(name: string, df: Frame): Outcome
    requires df.Valid()
  {
    var dups := DupCount(Rows(df));
    After((if HitColumns(df, df.names) != [] then [PlaceholderTokens(name)] else [])
            + (if dups > 0 then [DuplicateRows(name, dups)] else []),
          RangeIssues(name, df, ExpectedRanges))
  }

  /** A file passes every range check exactly when no present column is text or out of range. */
  lemma {:induction false} RangesClean(name: string, df: Frame, rs: seq<Range>)
    ensures RangeIssues(name, df, rs) == Outcome([], false) <==>
      forall k :: 0 <= k < |rs| && rs[k].column in df.cols ==>
        CountOutOfRange(df.cols[rs[k].column], rs[k]) == Ok(0)
  {
    if rs != [] {
      RangesClean(name, df, rs[1..]);
      assert forall k :: 1 <= k < |rs| ==> rs[k] == rs[1..][k - 1];
    }
  }

  /**
   * A readable file raises no issue exactly when no text column holds a
   * placeholder, no row repeats, and every present ranged column is numeric
   * and within its range.
   */
  lemma FileClean(name: string, df: Frame)
    requires df.Valid()
    ensures FileOutcome(name, df) == Outcome([], false) <==>
      && HitColumns(df, df.names) == []
      && DupCount(Rows(df)) == 0
      && forall k :: 0 <= k < |ExpectedRanges| && ExpectedRanges[k].column in df.cols ==>
           CountOutOfRange(df.cols[ExpectedRanges[k].column], ExpectedRanges[k]) == Ok(0)
  {
    RangesClean(name, df, ExpectedRanges);
  }

  // ---------------------------------------------------------------------
  // Categorical sample

  /** The line for one object column: min(len(vals), 15) and sorted(vals)[:15]. */
  datatype Sample = Sample(column: string, shown: nat, values: seq<string>)

  const SampleLimit: nat := 15

  /** df[c].dropna().astype(str).str.strip().unique() for a column read from a CSV. */
  function UniqueStripped(col: seq<Cell>): set<string>
  {
    set i | 0 <= i < |col| && col[i].Text? :: Strip(col[i].s)
  }

  /** The object columns among cs, in order. */
  function ObjectColumns(df: Frame, cs: seq<string>): (r: seq<string>)
    ensures forall j :: 0 <= j < |r| ==> r[j] in df.cols && IsObject(df.cols[r[j]])
  {
    if cs == [] then []
    else
      var c := cs[|cs| - 1];
      ObjectColumns(df, cs[..|cs| - 1]) + (if c in df.cols && IsObject(df.cols[c]) then [c] else [])
  }

  /**
   * s is the sample line for column c: the smallest distinct stripped values,
   * strictly increasing, at most 15 of them, and the count shown is their number.
   */
  predicate IsSampleOf(s: Sample, c: string, col: seq<Cell>)
  {
    var u := UniqueStripped(col);
    && s.column == c
    && StrictlySorted(s.values)
    && s.shown == |s.values| == (if |u| < SampleLimit then |u| else SampleLimit)
    && (forall i :: 0 <= i < |s.values| ==> s.values[i] in u)
    && (forall v, i :: v in u && 0 <= i < |s.values| && v !in s.values ==> Less(s.values[i], v))
  }

  /**
   * after extends before by one sample line for each object column among cs,
   * in the order of cs: the last object column's line comes last.
   */
  predicate SamplesAppended(before: seq<Sample>, after: seq<Sample>, df: Frame, cs: seq<string>)
    decreases |cs|
  {
    if cs == [] then after == before
    else
      var c := cs[|cs| - 1];
      if c in df.cols && IsObject(df.cols[c]) then
        && |after| > 0 && IsSampleOf(after[|after| - 1], c, df.cols[c])
        && SamplesAppended(before, after[..|after| - 1], df, cs[..|cs| - 1])
      else SamplesAppended(before, after, df, cs[..|cs| - 1])
  }

  /** One pass of the categorical loop: a sample line if column cs[i] is an object column. */
  lemma SamplesStep(before: seq<Sample>, mid: seq<Sample>, after: seq<Sample>, df: Frame, cs: seq<string>, i: nat)
    requires i < |cs| && cs[i] in df.cols
    requires SamplesAppended(before, mid, df, cs[..i])
    requires if IsObject(df.cols[cs[i]])
      then |after| == |mid| + 1 && after[..|mid|] == mid && IsSampleOf(after[|mid|], cs[i], df.cols[cs[i]])
      else after == mid
    ensures SamplesAppended(before, after, df, cs[..i + 1])
  {
    assert cs[..i + 1][..i] == cs[..i];
  }

  /** The lines appended are exactly as many as the object columns among cs. */
  lemma {:induction false} SamplesCount(before: seq<Sample>, after: seq<Sample>, df: Frame, cs: seq<string>)
    requires SamplesAppended(before, after, df, cs)
    ensures |after| == |before| + |ObjectColumns(df, cs)| && after[..|before|] == before
    decreases |cs|
  {
    if cs != [] {
      var c := cs[|cs| - 1];
      if c in df.cols && IsObject(df.cols[c]) {
        SamplesCount(before, after[..|after| - 1], df, cs[..|cs| - 1]);
        assert after[..|after| - 1][..|before|] == after[..|before|];
      } else {
        SamplesCount(before, after, df, cs[..|cs| - 1]);
      }
    }
  }

  /** Every value shown is the stripped text of some non-NaN entry, so none has outer whitespace. */
  lemma SampleValuesAreStripped(s: Sample, c: string, col: seq<Cell>, i: nat)
    requires IsSampleOf(s, c, col) && i < |s.values|
    ensures exists k :: 0 <= k < |col| && col[k].Text? && s.values[i] == Strip(col[k].s)
    ensures Strip(s.values[i]) == s.values[i]
  {
    var k :| 0 <= k < |col| && col[k].Text? && s.values[i] == Strip(col[k].s);
    StripIdempotent(col[k].s);
  }

  // ---------------------------------------------------------------------
  // The run

  /** A file in FILES: absent, failing to parse, or read into a frame. */
  datatype FileState = Absent | Unreadable | Loaded(df: Frame)

  predicate Readable(files: seq<(string, FileState)>)
  {
    forall i :: 0 <= i < |files| && files[i].1.Loaded? ==> files[i].1.df.Valid() && files[i].1.df.Typed()
  }

  lemma ReadableSuffix(files: seq<(string, FileState)>, i: nat)
    requires Readable(files) && i <= |files|
    ensures Readable(files[i..])
  {
    forall k | 0 <= k < |files[i..]| && files[i..][k].1.Loaded?
      ensures files[i..][k].1.df.Valid() && files[i..][k].1.df.Typed()
    {
      assert files[i..][k] == files[i + k];
    }
  }

  /** RunOutcome over the files from the i-th on, unfolded once. */
  lemma RunStep(files: seq<(string, FileState)>, i: nat)
    requires Readable(files) && i < |files|
    ensures Readable(files[i..]) && Readable(files[i + 1..])
    ensures var first := CheckOutcome(files[i].0, files[i].1);
      RunOutcome(files[i..]) == if first.crashed then first else After(first.issues, RunOutcome(files[i + 1..]))
  {
    ReadableSuffix(files, i);
    ReadableSuffix(files, i + 1);
    assert files[i..][0] == files[i] && files[i..][1..] == files[i + 1..];
  }

  /** One pass of the run loop in terms of the issues before and after it. */
  lemma RunAdvance(files: seq<(string, FileState)>, i: nat, before: seq<Issue>, after: seq<Issue>, crashed: bool)
    requires Readable(files) && i < |files|
    requires Outcome(after, crashed) == After(before, CheckOutcome(files[i].0, files[i].1))
    ensures Readable(files[i..]) && Readable(files[i + 1..])
    ensures crashed ==> Outcome(after, true) == After(before, RunOutcome(files[i..]))
    ensures !crashed ==> After(after, RunOutcome(files[i + 1..])) == After(before, RunOutcome(files[i..]))
  {
    RunStep(files, i);
    var first := CheckOutcome(files[i].0, files[i].1);
    if !crashed {
      var rest := RunOutcome(files[i + 1..]);
      assert after == before + first.issues;
      assert (before + first.issues) + rest.issues == before + (first.issues + rest.issues);
    }
  }

  /** The outcome for one file of the run loop. */
  function CheckOutcome(name: string, st: FileState): Outcome
    requires st.Loaded? ==> st.df.Valid()
  {
    match st
    case Absent => Outcome([MissingFile(name)], false)
    case Unreadable => Outcome([ReadFailed(name)], false)
    case Loaded(df) => FileOutcome(name, df)
  }

  /** The loop over FILES; an exception in check_file ends the script. */
  function RunOutcome(files: seq<(string, FileState)>): Outcome
    requires Readable(files)
  {
    if files == [] then Outcome([], false)
    else
      var first := CheckOutcome(files[0].0, files[0].1);
      if first.crashed then first else After(first.issues, RunOutcome(files[1..]))
  }

  /** The number of files check_file finishes before the first one that raises. */
  function Checked(files: seq<(string, FileState)>): (k: nat)
    requires Readable(files)
    ensures k <= |files|
  {
    if files == [] then 0
    else if CheckOutcome(files[0].0, files[0].1).crashed then 0
    else 1 + Checked(files[1..])
  }

  /** The run stops early exactly when some file raises. */
  lemma {:induction false} CheckedAllUnlessCrash(files: seq<(string, FileState)>)
    requires Readable(files)
    ensures Checked(files) < |files| <==> RunOutcome(files).crashed
    ensures Checked(files) < |files| ==> CheckOutcome(files[Checked(files)].0, files[Checked(files)].1).crashed
    decreases |files|
  {
    if files != [] && !CheckOutcome(files[0].0, files[0].1).crashed {
      ReadableSuffix(files, 1);
      CheckedAllUnlessCrash(files[1..]);
      var k := Checked(files[1..]);
      if k < |files[1..]| {
        assert files[1..][k] == files[k + 1];
      }
    }
  }

  /** Checked over the files from the i-th on, unfolded once. */
  lemma CheckedStep(files: seq<(string, FileState)>, i: nat)
    requires Readable(files) && i < |files| && Readable(files[i..]) && Readable(files[i + 1..])
    ensures Checked(files[i..]) ==
      if CheckOutcome(files[i].0, files[i].1).crashed then 0 else 1 + Checked(files[i + 1..])
  {
    assert files[i..][0] == files[i] && files[i..][1..] == files[i + 1..];
  }

  /**
   * after extends before by the sample lines of every file of fs that was
   * read: one line per object column, file after file, in column order.
   */
  predicate SamplesThrough(before: seq<Sample>, after: seq<Sample>, fs: seq<(string, FileState)>)
    decreases |fs|
  {
    if fs == [] then after == before
    else
      var st := fs[|fs| - 1].1;
      if !st.Loaded? then SamplesThrough(before, after, fs[..|fs| - 1])
      else
        var m := |after| - |ObjectColumns(st.df, st.df.names)|;
        && 0 <= m
        && SamplesThrough(before, after[..m], fs[..|fs| - 1])
        && SamplesAppended(after[..m], after, st.df, st.df.names)
  }

  /** The sample lines of one more file. */
  lemma SamplesThroughStep(before: seq<Sample>, s: seq<Sample>, t: seq<Sample>, files: seq<(string, FileState)>, i: nat)
    requires i < |files| && SamplesThrough(before, s, files[..i])
    requires files[i].1.Loaded? ==> SamplesAppended(s, t, files[i].1.df, files[i].1.df.names)
    requires !files[i].1.Loaded? ==> t == s
    ensures SamplesThrough(before, t, files[..i + 1])
  {
    var fs := files[..i + 1];
    assert fs[|fs| - 1] == files[i] && fs[..|fs| - 1] == files[..i];
    var st := files[i].1;
    if st.Loaded? {
      SamplesCount(s, t, st.df, st.df.names);
      var m := |t| - |ObjectColumns(st.df, st.df.names)|;
      assert m == |s| && t[..m] == s;
    }
  }

  /** sys.exit(1) when any issue was found; an uncaught exception also exits with 1. */
  function ExitStatus(issues: seq<Issue>, crashed: bool): (status: nat)
    ensures status == 0 <==> issues == [] && !crashed
  {
    if crashed || issues != [] then 1 else 0
  }

  /** A missing or unreadable file adds exactly one issue and nothing else. */
  lemma UnusableFileOneIssue(name: string, st: FileState)
    requires !st.Loaded?
    ensures |CheckOutcome(name, st).issues| == 1 && !CheckOutcome(name, st).crashed
  {
  }

  /** The file was read and checking it found nothing. */
  predicate CleanFile(file: (string, FileState))
    requires file.1.Loaded? ==> file.1.df.Valid()
  {
    file.1.Loaded? && FileOutcome(file.0, file.1.df) == Outcome([], false)
  }

  /** The run ends with no issue and no exception. */
  predicate CleanOutcome(o: Outcome)
  {
    o.issues == [] && !o.crashed
  }

  /** A run ending clean is a clean first file followed by a clean rest. */
  lemma CleanStep(first: Outcome, rest: Outcome)
    ensures CleanOutcome(if first.crashed then first else After(first.issues, rest)) <==>
      CleanOutcome(first) && CleanOutcome(rest)
  {
  }

  /** Every file clean is the first file clean and every later one clean. */
  lemma AllCleanSplit(files: seq<(string, FileState)>)
    requires Readable(files) && files != []
    ensures Readable(files[1..])
    ensures (forall i :: 0 <= i < |files| ==> CleanFile(files[i])) <==>
      CleanFile(files[0]) && forall i :: 0 <= i < |files[1..]| ==> CleanFile(files[1..][i])
  {
    ReadableSuffix(files, 1);
    assert forall i :: 1 <= i < |files| ==> files[i] == files[1..][i - 1];
  }

  /** The script exits with 0 exactly when every file was read and checked clean. */
  lemma {:induction false} RunClean(files: seq<(string, FileState)>)
    requires Readable(files)
    ensures var o := RunOutcome(files);
      ExitStatus(o.issues, o.crashed) == 0 <==>
        forall i :: 0 <= i < |files| ==> CleanFile(files[i])
  {
    if files != [] {
      AllCleanSplit(files);
      RunClean(files[1..]);
      CleanStep(CheckOutcome(files[0].0, files[0].1), RunOutcome(files[1..]));
    }
  }

  /** The module-level state of qc_check.py: the issues list and the sample lines. */
  class QcRun {
    var issues: seq<Issue>
    var samples: seq<Sample>

    constructor ()
      ensures issues == [] && samples == []
    {
      issues := [];
      samples := [];
    }

    /** check_file for a file that was read. */
    method CheckFile(name: string, df: Frame) returns (crashed: bool)
      requires df.Valid() && df.Typed()
      modifies this
      ensures After(old(issues), FileOutcome(name, df)) == Outcome(issues, crashed)
      ensures crashed ==> samples == old(samples)
      ensures !crashed ==> SamplesAppended(old(samples), samples, df, df.names)
    {
      // 3) placeholder tokens
      var hits := PlaceholderHits(df);
      if hits != [] {
        issues := issues + [PlaceholderTokens(name)];
      }

      // 4) duplicate rows
      var dups := DupCount(Rows(df));
      if dups > 0 {
        issues := issues + [DuplicateRows(name, dups)];
      }

      ghost var found := (if HitColumns(df, df.names) != [] then [PlaceholderTokens(name)] else [])
        + (if dups > 0 then [DuplicateRows(name, dups)] else []);
      assert issues == old(issues) + found;
      AfterAfter(old(issues), found, RangeIssues(name, df, ExpectedRanges));

      // 5) value ranges
      crashed := CheckRanges(name, df, ExpectedRanges);
      if crashed {
        return;
      }

      // 6) categorical uniques
      CategoricalSamples(df);
    }

    /** The ranges loop of check_file. */
    method CheckRanges(name: string, df: Frame, rs: seq<Range>) returns (crashed: bool)
      modifies this
      ensures After(old(issues), RangeIssues(name, df, rs)) == Outcome(issues, crashed)
      ensures samples == old(samples)
    {
      crashed := false;
      var k := 0;
      while k < |rs| && !crashed
        invariant 0 <= k <= |rs|
        invariant samples == old(samples)
        invariant !crashed ==> After(issues, RangeIssues(name, df, rs[k..])) == After(old(issues), RangeIssues(name, df, rs))
        invariant crashed ==> Outcome(issues, true) == After(old(issues), RangeIssues(name, df, rs))
        decreases |rs| - k, !crashed
      {
        var r := rs[k];
        RangeStep(name, df, rs, k);
        if r.column in df.cols {
          var bad := CountOutOfRange(df.cols[r.column], r);
          if bad.Err? {
            crashed := true;
          } else if bad.value > 0 {
            issues := issues + [OutOfRangeValues(name, r.column, bad.value)];
          }
        }
        if !crashed {
          k := k + 1;
        }
      }
      if !crashed {
        assert rs[k..] == [];
      }
    }

    /** The categorical loop of check_file: one sample line per object column. */
    method CategoricalSamples(df: Frame)
      requires df.Valid()
      modifies this
      ensures issues == old(issues)
      ensures SamplesAppended(old(samples), samples, df, df.names)
    {
      for i := 0 to |df.names|
        invariant issues == old(issues)
        invariant SamplesAppended(old(samples), samples, df, df.names[..i])
      {
        var c := df.names[i];
        ghost var mid := samples;
        if IsObject(df.cols[c]) {
          var sorted := SortedPrefix(UniqueStripped(df.cols[c]), SampleLimit);
          samples := samples + [Sample(c, |sorted|, sorted)];
        }
        SamplesStep(old(samples), mid, samples, df, df.names, i);
      }
      assert df.names[..|df.names|] == df.names;
    }

    /** One pass of the run loop: a missing file, a read error, or check_file. */
    method CheckPath(name: string, st: FileState) returns (crashed: bool)
      requires st.Loaded? ==> st.df.Valid() && st.df.Typed()
      modifies this
      ensures After(old(issues), CheckOutcome(name, st)) == Outcome(issues, crashed)
      ensures !st.Loaded? || crashed ==> samples == old(samples)
      ensures st.Loaded? && !crashed ==> SamplesAppended(old(samples), samples, st.df, st.df.names)
    {
      crashed := false;
      match st {
        case Absent =>
          issues := issues + [MissingFile(name)];
        case Unreadable =>
          issues := issues + [ReadFailed(name)];
        case Loaded(df) =>
          crashed := CheckFile(name, df);
      }
    }

    /** The loop over FILES and the exit status at the end of the script. */
    method Run(files: seq<(string, FileState)>) returns (status: nat)
      requires Readable(files)
      modifies this
      ensures After(old(issues), RunOutcome(files)) == Outcome(issues, RunOutcome(files).crashed)
      ensures status == ExitStatus(issues, RunOutcome(files).crashed)
      ensures SamplesThrough(old(samples), samples, files[..Checked(files)])
    {
      var crashed := false;
      var i := 0;
      while i < |files| && !crashed
        invariant 0 <= i <= |files|
        invariant Readable(files[i..])
        invariant !crashed ==> After(issues, RunOutcome(files[i..])) == After(old(issues), RunOutcome(files))
        invariant crashed ==> Outcome(issues, true) == After(old(issues), RunOutcome(files))
        invariant !crashed ==> Checked(files) == i + Checked(files[i..])
        invariant !crashed ==> SamplesThrough(old(samples), samples, files[..i])
        invariant crashed ==> SamplesThrough(old(samples), samples, files[..Checked(files)])
        decreases |files| - i, !crashed
      {
        ghost var before, seen := issues, samples;
        crashed := CheckPath(files[i].0, files[i].1);
        RunAdvance(files, i, before, issues, crashed);
        CheckedStep(files, i);
        if !crashed {
          SamplesThroughStep(old(samples), seen, samples, files, i);
          i := i + 1;
        }
      }
      if !crashed {
        assert files[i..] == [] && files[..i] == files;
      }
      status := ExitStatus(issues, crashed);
    }
  }
}
