/**
 * scripts/eda_explore.py: the attendance tier of a student, the att_tier
 * column that load_v2 adds, and the per-tier G3 table that tier_table builds.
 */
module Eda {
  import opened Wrappers
  import opened Cells
  import opened Frames
  import opened StringOrder
  import opened Statistics

  // ---------------------------------------------------------------------
  // attendance_tier

  datatype Tier = High | Moderate | Low | Unknown

  /** The label attendance_tier returns. */
  function Name(t: Tier): string
  {
    match t
    case High => "High"
    case Moderate => "Moderate"
    case Low => "Low"
    case Unknown => "Unknown"
  }

  /** The four labels attendance_tier can return. */
  const TierNames: set<string> := {"High", "Moderate", "Low", "Unknown"}

  /** Every label is one of the four, and only Unknown is labelled "Unknown". */
  lemma NameOfUnknown(t: Tier)
    ensures Name(t) in TierNames
    ensures Name(t) == "Unknown" <==> t == Unknown
  {
  }

  /**
   * float(x): a number or NaN converts to itself, a string converts when it is a
   * decimal numeral once surrounding whitespace is removed; None when float raises.
   */
  function Float(c: Cell): (r: Option<Cell>)
    ensures r.Some? ==> !r.value.Text?
    ensures r.None? <==> c.Text? && ParseNumber(Strip(c.s)).None?
  {
    match c
    case Text(s) => (match ParseNumber(Strip(s)) case Some(v) => Some(Num(v)) case None => None)
    case _ => Some(c)
  }

  /** x <= bound on a float: false when x is NaN. */
  predicate AtMost(x: Cell, bound: real)
  {
    x.Num? && x.x <= bound
  }

  function AttendanceTier(c: Cell): Tier
  {
    match Float(c)
    case None => Unknown
    case Some(x) => if AtMost(x, 5.0) then High else if AtMost(x, 15.0) then Moderate else Low
  }

  /** Position in High < Moderate < Low; Unknown after them. */
  function Rank(t: Tier): nat
  {
    match t
    case High => 0
    case Moderate => 1
    case Low => 2
    case Unknown => 3
  }

  /** Every value float accepts gets one of the three tiers; Unknown means float raised. */
  lemma UnknownOnlyWhenFloatRaises(c: Cell)
    ensures AttendanceTier(c) == Unknown <==> c.Text? && ParseNumber(Strip(c.s)).None?
    ensures AttendanceTier(c) != Unknown ==> Rank(AttendanceTier(c)) <= 2
  {
  }

  /** The thresholds are inclusive. */
  lemma TierThresholds(x: real)
    ensures AttendanceTier(Num(x)) == High <==> x <= 5.0
    ensures AttendanceTier(Num(x)) == Moderate <==> 5.0 < x <= 15.0
    ensures AttendanceTier(Num(x)) == Low <==> 15.0 < x
  {
  }

  /** More absences never give a better tier. */
  lemma TierMonotone(x: real, y: real)
    requires x <= y
    ensures Rank(AttendanceTier(Num(x))) <= Rank(AttendanceTier(Num(y)))
  {
  }

  /** NaN converts, fails both comparisons and lands in Low. */
  lemma MissingIsLow()
    ensures AttendanceTier(Missing) == Low
  {
  }

  /** The tier depends on a cell only through what float() makes of it. */
  lemma SameFloatSameTier(a: Cell, b: Cell)
    requires Float(a) == Float(b)
    ensures AttendanceTier(a) == AttendanceTier(b)
  {
  }

  /** The written form of an integer, as a CSV holds it, gets the tier of the integer. */
  lemma IntegerTextTier(n: int)
    ensures AttendanceTier(Text(IntToString(n))) == AttendanceTier(Num(n as real))
  {
    var written, value := Text(IntToString(n)), Num(n as real);
    StrippedIntRoundTrip(n);
    assert Float(written) == Some(value) == Float(value);
    SameFloatSameTier(written, value);
  }

  // ---------------------------------------------------------------------
  // load_v2

  /** The columns load_v2 coerces, in the order it lists them. */
  const EdaNumCols: seq<string> := ["absences", "G1", "G2", "G3", "age"]

  /** df["absences"].apply(attendance_tier), each label a string. */
  function TierLabels(absences: seq<Cell>): (r: seq<Cell>)
    ensures |r| == |absences|
    ensures forall i :: 0 <= i < |r| ==> r[i].Text? && r[i].s in TierNames
    ensures forall i :: 0 <= i < |r| ==>
      (r[i] == Text("Unknown") <==> absences[i].Text? && ParseNumber(Strip(absences[i].s)).None?)
    ensures IsNumeric(absences) ==> forall i :: 0 <= i < |r| ==> r[i] != Text("Unknown")
  {
    var r := seq(|absences|, i requires 0 <= i < |absences| => Text(Name(AttendanceTier(absences[i]))));
    LabelsOfTiers(absences, r);
    r
  }

  /** A sequence naming the tier of each entry says "Unknown" exactly where float raises. */
  lemma LabelsOfTiers(absences: seq<Cell>, r: seq<Cell>)
    requires |r| == |absences| && forall i :: 0 <= i < |r| ==> r[i] == Text(Name(AttendanceTier(absences[i])))
    ensures forall i :: 0 <= i < |r| ==> r[i].Text? && r[i].s in TierNames
    ensures forall i :: 0 <= i < |r| ==>
      (r[i] == Text("Unknown") <==> absences[i].Text? && ParseNumber(Strip(absences[i].s)).None?)
  {
    forall i | 0 <= i < |r|
      ensures r[i].Text? && r[i].s in TierNames
      ensures r[i] == Text("Unknown") <==> absences[i].Text? && ParseNumber(Strip(absences[i].s)).None?
    {
      UnknownOnlyWhenFloatRaises(absences[i]);
      NameOfUnknown(AttendanceTier(absences[i]));
    }
  }

  /** The frame load_v2 returns; Err (a KeyError) when there is no absences column. */
  function LoadedV2(df: Frame): Result<Frame>
    requires df.Valid()
  {
    var g := CoerceColumns(df, EdaNumCols);
    if "absences" in g.cols then Ok(SetColumn(g, "att_tier", TierLabels(g.cols["absences"]))) else Err
  }

  /** load_v2 after reading the CSV: the coercion loop, then the tier column. */
  method LoadV2(df: Frame) returns (r: Result<Frame>)
    requires df.Valid()
    ensures r == LoadedV2(df)
  {
    var g := CoerceNumeric(df, EdaNumCols);
    if "absences" !in g.cols {
      return Err;
    }
    var tiers := TierLabels(g.cols["absences"]);
    g := SetColumn(g, "att_tier", tiers);
    r := Ok(g);
  }

  /** The frame load_v2 builds keeps the rows and every column but the coerced ones and att_tier. */
  lemma LoadedV2Shape(df: Frame)
    requires df.Valid() && "absences" in df.cols
    ensures LoadedV2(df).Ok?
    ensures var g := LoadedV2(df).value;
      && g.Valid() && g.nrows == df.nrows
      && g.names == (if "att_tier" in df.cols then df.names else df.names + ["att_tier"])
      && g.cols.Keys == df.cols.Keys + {"att_tier"}
      && (forall c :: c in df.cols && c != "att_tier" && c !in EdaNumCols ==> g.cols[c] == df.cols[c])
      && (forall c :: c in df.cols && c != "att_tier" && c in EdaNumCols ==> g.cols[c] == ToNumericCol(df.cols[c]))
  {
    var h := CoerceColumns(df, EdaNumCols);
    assert LoadedV2(df) == Ok(SetColumn(h, "att_tier", TierLabels(h.cols["absences"])));
  }

  /** Row i of att_tier is the tier of the coerced absences value, never Unknown. */
  lemma LoadedV2Tier(df: Frame, i: nat)
    requires df.Valid() && "absences" in df.cols && i < df.nrows
    ensures LoadedV2(df).Ok? && i < |LoadedV2(df).value.cols["att_tier"]|
    ensures var t := LoadedV2(df).value.cols["att_tier"][i];
      && t == Text(Name(AttendanceTier(ToNumeric(df.cols["absences"][i]))))
      && t != Text("Unknown")
  {
    var h := CoerceColumns(df, EdaNumCols);
    var labels := TierLabels(h.cols["absences"]);
    assert LoadedV2(df).value.cols["att_tier"] == labels;
    assert h.cols["absences"][i] == ToNumeric(df.cols["absences"][i]);
    UnknownOnlyWhenFloatRaises(ToNumeric(df.cols["absences"][i]));
  }

  /**
   * load_v2 fails exactly without absences; otherwise it keeps the rows, adds
   * (or replaces) att_tier with one label per row, the tier of the coerced
   * absences value, and never the label Unknown.
   */
  lemma LoadedV2Effect(df: Frame, i: nat)
    requires df.Valid()
    ensures LoadedV2(df).Err? <==> "absences" !in df.cols
    ensures LoadedV2(df).Ok? ==>
      var g := LoadedV2(df).value;
      && g.Valid() && g.nrows == df.nrows
      && g.names == (if "att_tier" in df.cols then df.names else df.names + ["att_tier"])
      && g.cols.Keys == df.cols.Keys + {"att_tier"}
      && (forall c :: c in df.cols && c != "att_tier" && c !in EdaNumCols ==> g.cols[c] == df.cols[c])
      && (forall c :: c in df.cols && c != "att_tier" && c in EdaNumCols ==> g.cols[c] == ToNumericCol(df.cols[c]))
      && (i < g.nrows ==>
            && g.cols["att_tier"][i] == Text(Name(AttendanceTier(ToNumeric(df.cols["absences"][i]))))
            && g.cols["att_tier"][i] != Text("Unknown"))
  {
    if "absences" in df.cols {
      LoadedV2Shape(df);
      if i < df.nrows {
        LoadedV2Tier(df, i);
      }
    }
  }

  // ---------------------------------------------------------------------
  // tier_table

  /** One row of df.groupby("att_tier")["G3"].agg(["count", "mean"]); mean None is NaN. */
  datatype TierRow = TierRow(tier: string, count: nat, mean: Option<real>)

  /** The non-missing G3 values of the rows in tier t, in row order. */
  function Group(tiers: seq<Tier>, g3: seq<Cell>, t: Tier): (v: seq<real>)
    requires |tiers| == |g3|
    ensures |v| <= |g3|
  {
    if tiers == [] then []
    else
      var n := |tiers| - 1;
      Group(tiers[..n], g3[..n], t) + (if tiers[n] == t && g3[n].Num? then [g3[n].x] else [])
  }

  /** x is in the group of t exactly when some row of tier t has G3 equal to x. */
  lemma {:induction false} GroupMembers(tiers: seq<Tier>, g3: seq<Cell>, t: Tier, x: real)
    requires |tiers| == |g3|
    ensures x in Group(tiers, g3, t) <==> exists i :: 0 <= i < |tiers| && tiers[i] == t && g3[i] == Num(x)
  {
    if tiers != [] {
      var n := |tiers| - 1;
      GroupMembers(tiers[..n], g3[..n], t, x);
      if exists i :: 0 <= i < |tiers| && tiers[i] == t && g3[i] == Num(x) {
        var i :| 0 <= i < |tiers| && tiers[i] == t && g3[i] == Num(x);
        if i < n {
          assert tiers[..n][i] == t && g3[..n][i] == Num(x);
        }
      }
      if exists i :: 0 <= i < n && tiers[..n][i] == t && g3[..n][i] == Num(x) {
        var i :| 0 <= i < n && tiers[..n][i] == t && g3[..n][i] == Num(x);
        assert tiers[i] == t && g3[i] == Num(x);
      }
    }
  }

  /** A tier that no row has contributes no value. */
  lemma {:induction false} GroupOfAbsentTier(tiers: seq<Tier>, g3: seq<Cell>, t: Tier)
    requires |tiers| == |g3| && t !in tiers
    ensures Group(tiers, g3, t) == []
  {
    if tiers != [] {
      var n := |tiers| - 1;
      assert t !in tiers[..n];
      GroupOfAbsentTier(tiers[..n], g3[..n], t);
    }
  }

  /** Every non-missing G3 value lies in exactly one group. */
  lemma {:induction false} GroupsPartition(tiers: seq<Tier>, g3: seq<Cell>)
    requires |tiers| == |g3|
    ensures |Group(tiers, g3, High)| + |Group(tiers, g3, Moderate)| + |Group(tiers, g3, Low)|
      + |Group(tiers, g3, Unknown)| == |Values(g3)|
  {
    if tiers != [] {
      var n := |tiers| - 1;
      GroupsPartition(tiers[..n], g3[..n]);
      assert g3[..n] == g3[..|g3| - 1];
    }
  }

  /** The table row of tier t: its label, the count of non-NaN G3 and their mean. */
  function RowOf(tiers: seq<Tier>, g3: seq<Cell>, t: Tier): TierRow
    requires |tiers| == |g3|
  {
    var v := Group(tiers, g3, t);
    TierRow(Name(t), |v|, if |v| > 0 then Some(Mean(v)) else None)
  }

  /** One row per tier of `order` that occurs, in the order of `order`. */
  function TableOver(tiers: seq<Tier>, g3: seq<Cell>, order: seq<Tier>): seq<TierRow>
    requires |tiers| == |g3|
  {
    if order == [] then []
    else
      var n := |order| - 1;
      TableOver(tiers, g3, order[..n]) + (if order[n] in tiers then [RowOf(tiers, g3, order[n])] else [])
  }

  /** The tiers sorted by their labels as strings. */
  const ByName: seq<Tier> := [High, Low, Moderate, Unknown]

  /** tier_table on the att_tier labels and the coerced G3 column of a frame from load_v2. */
  function TierTable(tiers: seq<Tier>, g3: seq<Cell>): seq<TierRow>
    requires |tiers| == |g3|
  {
    TableOver(tiers, g3, ByName)
  }

  function Labels(rows: seq<TierRow>): (r: seq<string>)
    ensures |r| == |rows|
  {
    seq(|rows|, k requires 0 <= k < |rows| => rows[k].tier)
  }

  function TotalCount(rows: seq<TierRow>): nat
  {
    if rows == [] then 0 else TotalCount(rows[..|rows| - 1]) + rows[|rows| - 1].count
  }

  lemma ByNameSorted()
    ensures forall i, j :: 0 <= i < j < |ByName| ==> Less(Name(ByName[i]), Name(ByName[j]))
  {
    assert Less("High", "Low") && Less("Low", "Moderate") && Less("Moderate", "Unknown");
    LessTransitive("High", "Low", "Moderate");
    LessTransitive("High", "Moderate", "Unknown");
    LessTransitive("Low", "Moderate", "Unknown");
  }

  /** Each row of the table is the row of a tier of `order` that occurs. */
  lemma {:induction false} TableOverRows(tiers: seq<Tier>, g3: seq<Cell>, order: seq<Tier>, k: nat)
    requires |tiers| == |g3| && k < |TableOver(tiers, g3, order)|
    ensures exists t :: t in order && t in tiers && TableOver(tiers, g3, order)[k] == RowOf(tiers, g3, t)
  {
    var n := |order| - 1;
    var init := TableOver(tiers, g3, order[..n]);
    if k < |init| {
      TableOverRows(tiers, g3, order[..n], k);
      var t :| t in order[..n] && t in tiers && init[k] == RowOf(tiers, g3, t);
      assert t in order;
    } else {
      assert order[n] in order;
    }
  }

  /** A table extended by one row has the labels extended by that row's label. */
  lemma LabelsAppend(rows: seq<TierRow>, r: TierRow)
    ensures Labels(rows + [r]) == Labels(rows) + [r.tier]
  {
  }

  /** A label above every earlier one keeps a sorted list sorted. */
  lemma SortedAppend(ls: seq<string>, x: string)
    requires StrictlySorted(ls)
    requires forall i :: 0 <= i < |ls| ==> Less(ls[i], x)
    ensures StrictlySorted(ls + [x])
  {
  }

  /** Every row built from the tiers before the last one of `order` is labelled below it. */
  lemma EarlierRowBelow(tiers: seq<Tier>, g3: seq<Cell>, order: seq<Tier>, i: nat)
    requires |tiers| == |g3| && order != []
    requires forall i, j :: 0 <= i < j < |order| ==> Less(Name(order[i]), Name(order[j]))
    requires i < |TableOver(tiers, g3, order[..|order| - 1])|
    ensures Less(TableOver(tiers, g3, order[..|order| - 1])[i].tier, Name(order[|order| - 1]))
  {
    var n := |order| - 1;
    var table := TableOver(tiers, g3, order[..n]);
    TableOverRows(tiers, g3, order[..n], i);
    var t :| t in order[..n] && t in tiers && table[i] == RowOf(tiers, g3, t);
    assert table[i].tier == Name(t);
    var p :| 0 <= p < n && order[..n][p] == t;
    assert order[p] == t;
    assert Less(Name(order[p]), Name(order[n]));
  }

  /** The table keeps the order of `order` when the labels of `order` strictly increase. */
  lemma {:induction false} TableOverSorted(tiers: seq<Tier>, g3: seq<Cell>, order: seq<Tier>)
    requires |tiers| == |g3|
    requires forall i, j :: 0 <= i < j < |order| ==> Less(Name(order[i]), Name(order[j]))
    ensures StrictlySorted(Labels(TableOver(tiers, g3, order)))
  {
    if order != [] {
      var n := |order| - 1;
      var init := TableOver(tiers, g3, order[..n]);
      TableOverSorted(tiers, g3, order[..n]);
      if order[n] in tiers {
        var row := RowOf(tiers, g3, order[n]);
        assert TableOver(tiers, g3, order) == init + [row];
        LabelsAppend(init, row);
        forall i | 0 <= i < |init| ensures Less(Labels(init)[i], row.tier) {
          EarlierRowBelow(tiers, g3, order, i);
        }
        SortedAppend(Labels(init), row.tier);
      } else {
        assert TableOver(tiers, g3, order) == init;
      }
    }
  }

  /** Distinct tiers have distinct labels. */
  lemma NameInjective(t: Tier, u: Tier)
    requires Name(t) == Name(u)
    ensures t == u
  {
    assert Name(t)[0] == Name(u)[0];
  }

  /** t has a row in the table. */
  predicate HasRow(table: seq<TierRow>, t: Tier)
  {
    exists k :: 0 <= k < |table| && table[k].tier == Name(t)
  }

  /** A row of a concatenation is a row of one of its parts. */
  lemma HasRowAppend(a: seq<TierRow>, b: seq<TierRow>, t: Tier)
    ensures HasRow(a + b, t) <==> HasRow(a, t) || HasRow(b, t)
  {
    var ab := a + b;
    if HasRow(ab, t) {
      var k :| 0 <= k < |ab| && ab[k].tier == Name(t);
      if k < |a| {
        assert a[k] == ab[k];
      } else {
        assert b[k - |a|] == ab[k];
      }
    }
    if HasRow(a, t) {
      var k :| 0 <= k < |a| && a[k].tier == Name(t);
      assert ab[k] == a[k];
    }
    if HasRow(b, t) {
      var k :| 0 <= k < |b| && b[k].tier == Name(t);
      assert ab[|a| + k] == b[k];
    }
  }

  /** A single row labelled u is a row for t exactly when t is u. */
  lemma HasRowSingle(r: TierRow, u: Tier, t: Tier)
    requires r.tier == Name(u)
    ensures HasRow([r], t) <==> u == t
  {
    if HasRow([r], t) {
      NameInjective(u, t);
    }
    if u == t {
      assert [r][0].tier == Name(t);
    }
  }

  /** A tier has a row exactly when it is in `order` and some row of the frame has it. */
  lemma {:induction false} TableOverHasTier(tiers: seq<Tier>, g3: seq<Cell>, order: seq<Tier>, t: Tier)
    requires |tiers| == |g3|
    ensures HasRow(TableOver(tiers, g3, order), t) <==> t in order && t in tiers
  {
    if order != [] {
      var n := |order| - 1;
      var init := TableOver(tiers, g3, order[..n]);
      TableOverHasTier(tiers, g3, order[..n], t);
      assert order == order[..n] + [order[n]];
      if order[n] in tiers {
        var row := RowOf(tiers, g3, order[n]);
        assert TableOver(tiers, g3, order) == init + [row];
        HasRowAppend(init, [row], t);
        HasRowSingle(row, order[n], t);
      } else {
        assert TableOver(tiers, g3, order) == init;
      }
    }
  }

  /** Sum of the group sizes of the tiers of `order`. */
  function GroupSizes(tiers: seq<Tier>, g3: seq<Cell>, order: seq<Tier>): nat
    requires |tiers| == |g3|
  {
    if order == [] then 0
    else GroupSizes(tiers, g3, order[..|order| - 1]) + |Group(tiers, g3, order[|order| - 1])|
  }

  /** The counts of the table add up to the group sizes of all tiers of `order`. */
  lemma {:induction false} TableOverCounts(tiers: seq<Tier>, g3: seq<Cell>, order: seq<Tier>)
    requires |tiers| == |g3|
    ensures TotalCount(TableOver(tiers, g3, order)) == GroupSizes(tiers, g3, order)
  {
    if order != [] {
      var n := |order| - 1;
      var init := TableOver(tiers, g3, order[..n]);
      TableOverCounts(tiers, g3, order[..n]);
      if order[n] in tiers {
        var table := init + [RowOf(tiers, g3, order[n])];
        assert TableOver(tiers, g3, order) == table;
        assert table[..|table| - 1] == init;
      } else {
        assert TableOver(tiers, g3, order) == init;
        GroupOfAbsentTier(tiers, g3, order[n]);
      }
    }
  }

  lemma EveryTierByName(t: Tier)
    ensures t in ByName
  {
    match t
    case High => assert ByName[0] == t;
    case Low => assert ByName[1] == t;
    case Moderate => assert ByName[2] == t;
    case Unknown => assert ByName[3] == t;
  }

  lemma GroupSizesByName(tiers: seq<Tier>, g3: seq<Cell>)
    requires |tiers| == |g3|
    ensures GroupSizes(tiers, g3, ByName) == |Group(tiers, g3, High)| + |Group(tiers, g3, Moderate)|
      + |Group(tiers, g3, Low)| + |Group(tiers, g3, Unknown)|
  {
    assert ByName[..3] == [High, Low, Moderate];
    assert [High, Low, Moderate][..2] == [High, Low];
    assert [High, Low][..1] == [High];
    assert [High][..0] == [];
    assert GroupSizes(tiers, g3, [High]) == |Group(tiers, g3, High)|;
    assert GroupSizes(tiers, g3, [High, Low]) == GroupSizes(tiers, g3, [High]) + |Group(tiers, g3, Low)|;
    assert GroupSizes(tiers, g3, [High, Low, Moderate])
      == GroupSizes(tiers, g3, [High, Low]) + |Group(tiers, g3, Moderate)|;
  }

  /**
   * The table is sorted by tier label with one row per tier that occurs, each
   * row counting the non-NaN G3 values of its tier; the counts add up to the
   * number of non-NaN G3 values.
   */
  lemma TierTableProperties(tiers: seq<Tier>, g3: seq<Cell>)
    requires |tiers| == |g3|
    ensures StrictlySorted(Labels(TierTable(tiers, g3)))
    ensures forall t :: HasRow(TierTable(tiers, g3), t) <==> t in tiers
    ensures forall k :: 0 <= k < |TierTable(tiers, g3)| ==>
      exists t :: t in tiers && TierTable(tiers, g3)[k] == RowOf(tiers, g3, t)
    ensures TotalCount(TierTable(tiers, g3)) == |Values(g3)|
  {
    ByNameSorted();
    TableOverSorted(tiers, g3, ByName);
    forall t ensures HasRow(TierTable(tiers, g3), t) <==> t in tiers {
      TableOverHasTier(tiers, g3, ByName, t);
      EveryTierByName(t);
    }
    forall k | 0 <= k < |TierTable(tiers, g3)|
      ensures exists t :: t in tiers && TierTable(tiers, g3)[k] == RowOf(tiers, g3, t)
    {
      TableOverRows(tiers, g3, ByName, k);
    }
    TableOverCounts(tiers, g3, ByName);
    GroupSizesByName(tiers, g3);
    GroupsPartition(tiers, g3);
  }

  /** The tiers load_v2 assigns to a coerced absences column. */
  function TiersOf(absences: seq<Cell>): (r: seq<Tier>)
    ensures |r| == |absences|
  {
    seq(|absences|, i requires 0 <= i < |absences| => AttendanceTier(absences[i]))
  }

  /** The tier table of the frame load_v2 returns; Err (a KeyError) without G3. */
  function TablesOf(df: Frame): Result<seq<TierRow>>
    requires df.Valid()
  {
    var g :- LoadedV2(df);
    if "G3" in g.cols then
      Ok(TierTable(TiersOf(g.cols["absences"]), g.cols["G3"]))
    else Err
  }

  /** A numeric absences column never gets the tier Unknown. */
  lemma NoUnknownTier(absences: seq<Cell>)
    requires IsNumeric(absences)
    ensures Unknown !in TiersOf(absences)
  {
    var tiers := TiersOf(absences);
    forall i | 0 <= i < |tiers| ensures tiers[i] != Unknown {
      UnknownOnlyWhenFloatRaises(absences[i]);
    }
  }

  /** The table of a frame whose tiers are all known has no Unknown row. */
  lemma NoUnknownRow(tiers: seq<Tier>, g3: seq<Cell>)
    requires |tiers| == |g3| && Unknown !in tiers
    ensures forall k :: 0 <= k < |TierTable(tiers, g3)| ==> TierTable(tiers, g3)[k].tier != "Unknown"
  {
    forall k | 0 <= k < |TierTable(tiers, g3)| ensures TierTable(tiers, g3)[k].tier != "Unknown" {
      TableOverRows(tiers, g3, ByName, k);
      var t :| t in ByName && t in tiers && TierTable(tiers, g3)[k] == RowOf(tiers, g3, t);
      if Name(t) == "Unknown" {
        NameInjective(t, Unknown);
      }
    }
  }

  /** After load_v2 the table never has an Unknown row, and its counts are of non-missing G3. */
  lemma TablesOfLoaded(df: Frame)
    requires df.Valid() && "absences" in df.cols && "G3" in df.cols
    ensures TablesOf(df).Ok?
    ensures forall k :: 0 <= k < |TablesOf(df).value| ==> TablesOf(df).value[k].tier != "Unknown"
    ensures TotalCount(TablesOf(df).value) == df.nrows - CountMissing(ToNumericCol(df.cols["G3"]))
  {
    var g := LoadedV2(df).value;
    var tiers := TiersOf(g.cols["absences"]);
    var g3 := g.cols["G3"];
    assert TablesOf(df) == Ok(TierTable(tiers, g3));
    NoUnknownTier(g.cols["absences"]);
    NoUnknownRow(tiers, g3);
    TierTableProperties(tiers, g3);
    NumericCount(g3);
  }

  /** In a numeric column every entry is a number or NaN. */
  lemma {:induction false} NumericCount(col: seq<Cell>)
    requires IsNumeric(col)
    ensures |Values(col)| == |col| - CountMissing(col)
  {
    if col != [] {
      NumericCount(col[..|col| - 1]);
    }
  }
}
