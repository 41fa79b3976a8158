/**
 * The column statistics pandas computes for the outlier scan, over the non-NaN
 * numbers of a column: sorting, the linear-interpolation quantile of
 * Series.quantile, min, max, the mean and the population variance (ddof=0).
 */
module Statistics {
  import opened Cells

  /** The numbers of a column in order; NaN entries are skipped, as pandas statistics skip them. */
  function Values(col: seq<Cell>): (v: seq<real>)
    ensures |v| <= |col|
  {
    if col == [] then []
    else Values(col[..|col| - 1]) + (if col[|col| - 1].Num? then [col[|col| - 1].x] else [])
  }

  /** The values are exactly the numbers that occur in the column. */
  lemma {:induction false} ValuesMembers(col: seq<Cell>, x: real)
    ensures x in Values(col) <==> exists i :: 0 <= i < |col| && col[i] == Num(x)
  {
    if col != [] {
      var n := |col| - 1;
      ValuesMembers(col[..n], x);
      if exists i :: 0 <= i < |col| && col[i] == Num(x) {
        var i :| 0 <= i < |col| && col[i] == Num(x);
        if i < n {
          assert col[..n][i] == Num(x);
        }
      }
      if exists i :: 0 <= i < n && col[..n][i] == Num(x) {
        var i :| 0 <= i < n && col[..n][i] == Num(x);
        assert col[i] == Num(x);
      }
    }
  }

  lemma {:induction false} ValuesCount(col: seq<Cell>)
    ensures |Values(col)| == CountWhere(col, (c: Cell) => c.Num?)
  {
    if col != [] {
      ValuesCount(col[..|col| - 1]);
    }
  }

  // ---------------------------------------------------------------------
  // Sorting

  predicate Sorted(v: seq<real>)
  {
    forall i, j :: 0 <= i <= j < |v| ==> v[i] <= v[j]
  }

  function Insert(x: real, v: seq<real>): (r: seq<real>)
    requires Sorted(v)
    ensures Sorted(r) && multiset(r) == multiset(v) + multiset{x} && |r| == |v| + 1
  {
    if v == [] then [x]
    else if x <= v[0] then
      SortedCons(x, v);
      [x] + v
    else
      var rest := Insert(x, v[1..]);
      assert v == [v[0]] + v[1..];
      InsertAbove(x, v, rest);
      SortedCons(v[0], rest);
      [v[0]] + rest
  }

  /** A head no greater than the first of a sorted sequence keeps it sorted. */
  lemma SortedCons(h: real, v: seq<real>)
    requires Sorted(v) && (v == [] || h <= v[0])
    ensures Sorted([h] + v)
  {
    var w := [h] + v;
    forall i, j | 0 <= i <= j < |w| ensures w[i] <= w[j] {
      if i == 0 && j > 0 {
        assert w[j] == v[j - 1] && v[0] <= v[j - 1];
      }
    }
  }

  /** Every element of what Insert returns for the tail is at least the head. */
  lemma InsertAbove(x: real, v: seq<real>, rest: seq<real>)
    requires Sorted(v) && |v| > 0 && v[0] < x
    requires multiset(rest) == multiset(v[1..]) + multiset{x}
    ensures forall k :: 0 <= k < |rest| ==> v[0] <= rest[k]
  {
    forall k | 0 <= k < |rest| ensures v[0] <= rest[k] {
      assert rest[k] in multiset(rest);
      if rest[k] != x {
        assert rest[k] in multiset(v[1..]);
        var j :| 0 <= j < |v[1..]| && v[1..][j] == rest[k];
        assert v[j + 1] == rest[k];
      }
    }
  }

  /** Insertion sort: an ordered permutation. */
  function Sort(v: seq<real>): (r: seq<real>)
    ensures Sorted(r) && multiset(r) == multiset(v) && |r| == |v|
  {
    if v == [] then []
    else
      assert v == [v[0]] + v[1..];
      Insert(v[0], Sort(v[1..]))
  }

  /** Sorting what is already sorted changes nothing. */
  lemma {:induction false} SortOfSorted(v: seq<real>)
    requires Sorted(v)
    ensures Sort(v) == v
  {
    if v != [] {
      SortOfSorted(v[1..]);
      assert v == [v[0]] + v[1..];
    }
  }

  // ---------------------------------------------------------------------
  // Real arithmetic facts the solver is not left to find alone

  lemma NonNegProduct(a: real, b: real)
    requires a >= 0.0 && b >= 0.0
    ensures a * b >= 0.0
  {
  }

  lemma MulLeft(a: real, b: real, c: real)
    requires 0.0 <= a && b <= c
    ensures a * b <= a * c
  {
    NonNegProduct(a, c - b);
    assert a * (c - b) == a * c - a * b;
  }

  lemma MulRight(a: real, b: real, c: real)
    requires 0.0 <= a && b <= c
    ensures b * a <= c * a
  {
    NonNegProduct(c - b, a);
    assert (c - b) * a == c * a - b * a;
  }

  lemma PositiveProduct(a: real, b: real)
    requires a > 0.0 && b > 0.0
    ensures a * b > 0.0
  {
  }

  function Abs(x: real): real
  {
    if x < 0.0 then -x else x
  }

  lemma AbsSquare(d: real)
    ensures Abs(d) * Abs(d) == d * d
  {
  }

  /** Squaring is monotone on the non-negative reals, strictly so. */
  lemma SquareMonotone(a: real, b: real)
    requires 0.0 <= a
    ensures a <= b ==> a * a <= b * b
    ensures a < b ==> a * a < b * b
  {
    if a <= b {
      MulLeft(a, a, b);
      MulLeft(b, a, b);
    }
    if a < b {
      PositiveProduct(b - a, b + a);
      assert (b - a) * (b + a) == b * b - a * a;
    }
  }

  function Square(d: real): real
  {
    d * d
  }

  lemma SquareNonNeg(d: real)
    ensures Square(d) >= 0.0
    ensures d != 0.0 ==> Square(d) > 0.0
  {
    SquareMonotone(0.0, Abs(d));
    AbsSquare(d);
  }

  // ---------------------------------------------------------------------
  // Quantiles

  /** The fractional position (n - 1) * p of the p-quantile among n sorted values. */
  function Position(n: nat, p: real): (h: real)
    requires n > 0 && 0.0 <= p <= 1.0
    ensures 0.0 <= h <= (n - 1) as real
    ensures 0 <= h.Floor < n
  {
    var m := (n - 1) as real;
    MulLeft(m, p, 1.0);
    assert m * 1.0 == m;
    NonNegProduct(m, p);
    m * p
  }

  lemma PositionMonotone(n: nat, p: real, q: real)
    requires n > 0 && 0.0 <= p <= q <= 1.0
    ensures Position(n, p) <= Position(n, q)
  {
    var m := (n - 1) as real;
    NonNegProduct(m, q - p);
    calc {
      Position(n, q) - Position(n, p);
      m * q - m * p;
      m * (q - p);
    >= 0.0;
    }
  }

  /** Series.quantile(p) with linear interpolation, over sorted values. */
  function Quantile(v: seq<real>, p: real): real
    requires |v| > 0 && 0.0 <= p <= 1.0
  {
    var h := Position(|v|, p);
    var lo := h.Floor;
    if lo + 1 < |v| then v[lo] + (h - lo as real) * (v[lo + 1] - v[lo]) else v[lo]
  }

  /** The interpolated value lies between the two neighbours it interpolates. */
  lemma Between(a: real, b: real, t: real)
    requires a <= b && 0.0 <= t <= 1.0
    ensures a <= a + t * (b - a) <= b
  {
    NonNegProduct(t, b - a);
    MulLeft(b - a, t, 1.0);
  }

  /** Interpolating further along a rising segment gives a larger value. */
  lemma LerpMonotone(a: real, b: real, s: real, t: real)
    requires a <= b && s <= t
    ensures a + s * (b - a) <= a + t * (b - a)
  {
    MulRight(b - a, s, t);
  }

  /** A quantile between neighbours v[lo] and v[lo + 1], lo the floor of the position. */
  lemma QuantileNeighbours(v: seq<real>, p: real)
    requires |v| > 0 && Sorted(v) && 0.0 <= p <= 1.0
    ensures var lo := Position(|v|, p).Floor;
      v[lo] <= Quantile(v, p) && (lo + 1 < |v| ==> Quantile(v, p) <= v[lo + 1])
      && (lo + 1 == |v| ==> Quantile(v, p) == v[lo])
  {
    var h := Position(|v|, p);
    var lo := h.Floor;
    if lo + 1 < |v| {
      Between(v[lo], v[lo + 1], h - lo as real);
    }
  }

  /** A quantile of sorted values lies between the smallest and the largest. */
  lemma QuantileWithin(v: seq<real>, p: real)
    requires |v| > 0 && Sorted(v) && 0.0 <= p <= 1.0
    ensures v[0] <= Quantile(v, p) <= v[|v| - 1]
  {
    QuantileNeighbours(v, p);
  }

  /** Quantiles are monotone in p; hence Q1 <= median <= Q3. */
  lemma QuantileMonotone(v: seq<real>, p: real, q: real)
    requires |v| > 0 && Sorted(v) && 0.0 <= p <= q <= 1.0
    ensures Quantile(v, p) <= Quantile(v, q)
  {
    var n := |v|;
    var hp, hq := Position(n, p), Position(n, q);
    PositionMonotone(n, p, q);
    var lp, lq := hp.Floor, hq.Floor;
    assert lp <= lq;
    QuantileNeighbours(v, p);
    QuantileNeighbours(v, q);
    if lp == lq && lp + 1 < n {
      LerpMonotone(v[lp], v[lp + 1], hp - lp as real, hq - lp as real);
    } else if lp < lq {
      assert v[lp + 1] <= v[lq];
    }
  }

  // ---------------------------------------------------------------------
  // Min, max, mean, population variance

  function Min(v: seq<real>): (m: real)
    requires |v| > 0
    ensures m in v && forall i :: 0 <= i < |v| ==> m <= v[i]
  {
    if |v| == 1 then v[0]
    else var rest := Min(v[1..]); if v[0] <= rest then v[0] else rest
  }

  function Max(v: seq<real>): (m: real)
    requires |v| > 0
    ensures m in v && forall i :: 0 <= i < |v| ==> v[i] <= m
  {
    if |v| == 1 then v[0]
    else var rest := Max(v[1..]); if v[0] >= rest then v[0] else rest
  }

  function Sum(v: seq<real>): real
  {
    if v == [] then 0.0 else Sum(v[..|v| - 1]) + v[|v| - 1]
  }

  function Mean(v: seq<real>): real
    requires |v| > 0
  {
    Sum(v) / |v| as real
  }

  /** Sum of squared deviations from m. */
  function SquaredDeviations(v: seq<real>, m: real): (r: real)
    ensures r >= 0.0
  {
    if v == [] then 0.0
    else
      SquareNonNeg(v[|v| - 1] - m);
      SquaredDeviations(v[..|v| - 1], m) + Square(v[|v| - 1] - m)
  }

  /** s.std(ddof=0) squared. */
  function Variance(v: seq<real>): (r: real)
    requires |v| > 0
    ensures r >= 0.0
  {
    SquaredDeviations(v, Mean(v)) / |v| as real
  }

  predicate Constant(v: seq<real>, c: real)
  {
    forall i :: 0 <= i < |v| ==> v[i] == c
  }

  lemma {:induction false} SumConstant(v: seq<real>, c: real)
    requires Constant(v, c)
    ensures Sum(v) == |v| as real * c
  {
    if v != [] {
      SumConstant(v[..|v| - 1], c);
    }
  }

  lemma {:induction false} DeviationsConstant(v: seq<real>, c: real)
    requires Constant(v, c)
    ensures SquaredDeviations(v, c) == 0.0
  {
    if v != [] {
      DeviationsConstant(v[..|v| - 1], c);
    }
  }

  /** A constant column has mean equal to its value and zero variance. */
  lemma ConstantHasNoVariance(v: seq<real>, c: real)
    requires |v| > 0 && Constant(v, c)
    ensures Mean(v) == c && Variance(v) == 0.0
  {
    SumConstant(v, c);
    DeviationsConstant(v, c);
  }

  /** Every deviation is bounded by the whole sum of squared deviations. */
  lemma {:induction false} DeviationWithinSum(v: seq<real>, m: real, i: nat)
    requires i < |v|
    ensures Square(v[i] - m) <= SquaredDeviations(v, m)
  {
    var n := |v| - 1;
    SquareNonNeg(v[n] - m);
    if i < n {
      DeviationWithinSum(v[..n], m, i);
    }
  }

  /** Zero variance means every value equals the mean. */
  lemma ZeroVarianceIsConstant(v: seq<real>)
    requires |v| > 0 && Variance(v) == 0.0
    ensures Constant(v, Mean(v))
  {
    var m := Mean(v);
    var n := |v| as real;
    var sd := SquaredDeviations(v, m);
    assert sd / n == 0.0;
    forall i | 0 <= i < |v| ensures v[i] == m {
      DeviationWithinSum(v, m, i);
      SquareNonNeg(v[i] - m);
    }
  }
}
