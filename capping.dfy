/**
 * cap_series of scripts/apply_caps_make_v2.py: clamp a numeric column to an
 * optional lower and an optional upper bound, and count the entries that
 * pandas' `!=` reports as changed.
 */
module Capping {
  import opened Wrappers
  import opened Cells

  /** np.where(s < low, low, s) followed by np.where(s > high, high, s) on one entry. */
  function CapCell(c: Cell, low: Option<real>, high: Option<real>): Cell
  {
    var a := if low.Some? && c.Num? && c.x < low.value then Num(low.value) else c;
    if high.Some? && a.Num? && a.x > high.value then Num(high.value) else a
  }

  function CapValues(s: seq<Cell>, low: Option<real>, high: Option<real>): (r: seq<Cell>)
    ensures |r| == |s|
  {
    if s == [] then [] else CapValues(s[..|s| - 1], low, high) + [CapCell(s[|s| - 1], low, high)]
  }

  /** pandas `!=` on one pair of entries: NaN is unequal to everything, itself included. */
  predicate Unequal(a: Cell, b: Cell)
  {
    a.Missing? || b.Missing? || a != b
  }

  function CountUnequal(a: seq<Cell>, b: seq<Cell>): nat
    requires |a| == |b|
  {
    if a == [] then 0
    else CountUnequal(a[..|a| - 1], b[..|b| - 1]) + (if Unequal(a[|a| - 1], b[|b| - 1]) then 1 else 0)
  }

  /** cap_series(s, low, high): the capped column, re-coerced to numeric, and n_changed. */
  function CapSeries(s: seq<Cell>, low: Option<real>, high: Option<real>): (r: (seq<Cell>, nat))
    requires IsNumeric(s)
    ensures |r.0| == |s| && IsNumeric(r.0)
  {
    var capped := ToNumericCol(CapValues(s, low, high));
    (capped, CountUnequal(s, capped))
  }

  // ---------------------------------------------------------------------
  // What the bounds mean

  predicate InBounds(x: real, low: Option<real>, high: Option<real>)
  {
    (low.None? || low.value <= x) && (high.None? || x <= high.value)
  }

  /** A number strictly below a set lower bound or strictly above a set upper bound. */
  predicate Outside(c: Cell, low: Option<real>, high: Option<real>)
  {
    c.Num? && ((low.Some? && c.x < low.value) || (high.Some? && c.x > high.value))
  }

  predicate Ordered(low: Option<real>, high: Option<real>)
  {
    low.None? || high.None? || low.value <= high.value
  }

  lemma {:induction false} CapValuesAt(s: seq<Cell>, low: Option<real>, high: Option<real>, i: nat)
    requires i < |s|
    ensures CapValues(s, low, high)[i] == CapCell(s[i], low, high)
  {
    var n := |s| - 1;
    if i < n {
      CapValuesAt(s[..n], low, high, i);
    }
  }

  lemma CapValuesNumeric(s: seq<Cell>, low: Option<real>, high: Option<real>)
    requires IsNumeric(s)
    ensures CapSeries(s, low, high).0 == CapValues(s, low, high)
  {
    var r := CapValues(s, low, high);
    forall i | 0 <= i < |s| ensures !r[i].Text? {
      CapValuesAt(s, low, high, i);
    }
  }

  /** Entry i of the output is entry i of the input, clamped. */
  lemma CapSeriesAt(s: seq<Cell>, low: Option<real>, high: Option<real>, i: nat)
    requires IsNumeric(s) && i < |s|
    ensures CapSeries(s, low, high).0[i] == CapCell(s[i], low, high)
  {
    CapValuesNumeric(s, low, high);
    CapValuesAt(s, low, high, i);
  }

  /**
   * With ordered bounds every number of the output lies within the bounds that
   * are set; NaN stays NaN and no number becomes NaN.
   */
  lemma CapWithinBounds(s: seq<Cell>, low: Option<real>, high: Option<real>)
    requires IsNumeric(s) && Ordered(low, high)
    ensures var r := CapSeries(s, low, high).0;
      forall i :: 0 <= i < |s| ==>
        (r[i].Num? <==> s[i].Num?) && (r[i].Num? ==> InBounds(r[i].x, low, high))
  {
    forall i | 0 <= i < |s| {
      CapSeriesAt(s, low, high, i);
    }
  }

  /**
   * Values below low become low, values above high become high, values within
   * the set bounds and NaN entries are left as they were.
   */
  lemma CapMovesOnlyOutliers(s: seq<Cell>, low: Option<real>, high: Option<real>)
    requires IsNumeric(s) && Ordered(low, high)
    ensures var r := CapSeries(s, low, high).0;
      forall i :: 0 <= i < |s| ==>
        && (s[i].Num? && low.Some? && s[i].x < low.value ==> r[i] == Num(low.value))
        && (s[i].Num? && high.Some? && s[i].x > high.value ==> r[i] == Num(high.value))
        && (!Outside(s[i], low, high) ==> r[i] == s[i])
  {
    forall i | 0 <= i < |s| {
      CapSeriesAt(s, low, high, i);
    }
  }

  /** With low above high the two clamps send every number to high. */
  lemma CapCrossedBounds(s: seq<Cell>, low: real, high: real)
    requires IsNumeric(s) && high < low
    ensures var r := CapSeries(s, Some(low), Some(high)).0;
      forall i :: 0 <= i < |s| ==> r[i] == if s[i].Num? then Num(high) else Missing
  {
    forall i | 0 <= i < |s| {
      CapSeriesAt(s, Some(low), Some(high), i);
    }
  }

  lemma CapNoBounds(s: seq<Cell>)
    requires IsNumeric(s)
    ensures CapSeries(s, None, None).0 == s
  {
    var r := CapSeries(s, None, None).0;
    forall i | 0 <= i < |s| ensures r[i] == s[i] {
      CapSeriesAt(s, None, None, i);
    }
  }

  /** Capping the output again with the same bounds changes nothing. */
  lemma CapIdempotent(s: seq<Cell>, low: Option<real>, high: Option<real>)
    requires IsNumeric(s)
    ensures var r := CapSeries(s, low, high).0; CapSeries(r, low, high).0 == r
  {
    var r := CapSeries(s, low, high).0;
    var rr := CapSeries(r, low, high).0;
    forall i | 0 <= i < |s| ensures rr[i] == r[i] {
      CapSeriesAt(s, low, high, i);
      CapSeriesAt(r, low, high, i);
    }
  }

  lemma {:induction false} CountUnequalCapped(s: seq<Cell>, low: Option<real>, high: Option<real>)
    ensures CountUnequal(s, CapValues(s, low, high))
         == CountWhere(s, (c: Cell) => Unequal(c, CapCell(c, low, high)))
  {
    if s != [] {
      var n := |s| - 1;
      assert CapValues(s, low, high)[..n] == CapValues(s[..n], low, high);
      CountUnequalCapped(s[..n], low, high);
    }
  }

  /**
   * n_changed is the number of NaN entries (NaN != NaN holds in pandas) plus the
   * number of numbers strictly outside the set bounds.
   */
  lemma ChangedCount(s: seq<Cell>, low: Option<real>, high: Option<real>)
    requires IsNumeric(s) && Ordered(low, high)
    ensures CapSeries(s, low, high).1
         == CountMissing(s) + CountWhere(s, (c: Cell) => Outside(c, low, high))
  {
    CapValuesNumeric(s, low, high);
    CountUnequalCapped(s, low, high);
    var changed := (c: Cell) => Unequal(c, CapCell(c, low, high));
    CountWhereSame(s, changed, (c: Cell) => !c.Text? && changed(c));
    CountWhereDisjoint(s, (c: Cell) => c.Missing?, (c: Cell) => Outside(c, low, high),
                       (c: Cell) => !c.Text? && changed(c));
  }

  /** Predicates that agree on every element of s count alike. */
  lemma {:induction false} CountWhereSame(s: seq<Cell>, p: Cell -> bool, q: Cell -> bool)
    requires IsNumeric(s)
    requires forall c: Cell :: !c.Text? ==> (p(c) <==> q(c))
    ensures CountWhere(s, p) == CountWhere(s, q)
  {
    if s != [] {
      CountWhereSame(s[..|s| - 1], p, q);
    }
  }
}
