/**
 * Cell values of a pandas column, Python string stripping, the numeric
 * coercion of pd.to_numeric(errors="coerce"), and counting over columns.
 * A float NaN is the constructor Missing; every comparison with it is false.
 */
module Cells {
  import opened Wrappers

  datatype Cell = Num(x: real) | Missing | Text(s: string)

  /** A column holds no text: its pandas dtype is numeric (float). */
  predicate IsNumeric(col: seq<Cell>) {
    forall i :: 0 <= i < |col| ==> !col[i].Text?
  }

  /** The pandas dtype of a column is "object" exactly when it holds a string. */
  predicate IsObject(col: seq<Cell>) {
    exists i :: 0 <= i < |col| && col[i].Text?
  }

  /** As read from a CSV: a column does not mix numbers and strings. */
  predicate Homogeneous(col: seq<Cell>) {
    IsNumeric(col) || forall i :: 0 <= i < |col| ==> !col[i].Num?
  }

  // ---------------------------------------------------------------------
  // Counting

  /** Number of elements of s that satisfy p. */
  function CountWhere<T>(s: seq<T>, p: T -> bool): nat
  {
    if s == [] then 0 else CountWhere(s[..|s| - 1], p) + (if p(s[|s| - 1]) then 1 else 0)
  }

  /** The positions of s that satisfy p: the reference meaning of CountWhere. */
  function IndicesWhere<T>(s: seq<T>, p: T -> bool): set<nat>
  {
    set i: nat | i < |s| && p(s[i])
  }

  lemma {:induction false} CountWhereIsCardinality<T>(s: seq<T>, p: T -> bool)
    ensures CountWhere(s, p) == |IndicesWhere(s, p)|
  {
    if s != [] {
      var n := |s| - 1;
      var init := s[..n];
      CountWhereIsCardinality(init, p);
      var small := IndicesWhere(init, p);
      if p(s[n]) {
        assert IndicesWhere(s, p) == small + {n};
        assert n !in small;
      } else {
        assert IndicesWhere(s, p) == small;
      }
    }
  }

  lemma {:induction false} CountWhereAppend<T>(a: seq<T>, b: seq<T>, p: T -> bool)
    ensures CountWhere(a + b, p) == CountWhere(a, p) + CountWhere(b, p)
  {
    if b != [] {
      var n := |b| - 1;
      assert (a + b)[..|a + b| - 1] == a + b[..n];
      CountWhereAppend(a, b[..n], p);
    } else {
      assert a + b == a;
    }
  }

  lemma {:induction false} CountWhereBounded<T>(s: seq<T>, p: T -> bool)
    ensures CountWhere(s, p) <= |s|
  {
    if s != [] {
      CountWhereBounded(s[..|s| - 1], p);
    }
  }

  /** A count is positive exactly when some element satisfies the predicate. */
  lemma {:induction false} CountWherePositive<T>(s: seq<T>, p: T -> bool)
    ensures CountWhere(s, p) > 0 <==> exists i :: 0 <= i < |s| && p(s[i])
  {
    if s != [] {
      var n := |s| - 1;
      CountWherePositive(s[..n], p);
      if CountWhere(s[..n], p) > 0 {
        var i :| 0 <= i < n && p(s[..n][i]);
        assert p(s[i]);
      }
      if exists i :: 0 <= i < |s| && p(s[i]) {
        var i :| 0 <= i < |s| && p(s[i]);
        if i < n {
          assert p(s[..n][i]);
        }
      }
    }
  }

  /** Counting a predicate implied by another never yields less. */
  lemma {:induction false} CountWhereMono<T>(s: seq<T>, p: T -> bool, q: T -> bool)
    requires forall x :: p(x) ==> q(x)
    ensures CountWhere(s, p) <= CountWhere(s, q)
  {
    if s != [] {
      CountWhereMono(s[..|s| - 1], p, q);
    }
  }

  /** Counting a disjunction of disjoint predicates adds the counts. */
  lemma {:induction false} CountWhereDisjoint<T>(s: seq<T>, p: T -> bool, q: T -> bool, pq: T -> bool)
    requires forall x :: pq(x) <==> p(x) || q(x)
    requires forall x :: !(p(x) && q(x))
    ensures CountWhere(s, pq) == CountWhere(s, p) + CountWhere(s, q)
  {
    if s != [] {
      CountWhereDisjoint(s[..|s| - 1], p, q, pq);
    }
  }

  function CountMissing(col: seq<Cell>): nat
  {
    CountWhere(col, (c: Cell) => c.Missing?)
  }

  // ---------------------------------------------------------------------
  // Python's str.strip()

  /** Python's str.isspace() for one character. */
  predicate IsSpace(c: char) {
    || c == ' ' || ('\t' <= c <= '\r') || ('\U{1c}' <= c <= '\U{1f}')
    || c == '\U{85}' || c == '\U{a0}' || c == '\U{1680}' || ('\U{2000}' <= c <= '\U{200a}')
    || c == '\U{2028}' || c == '\U{2029}' || c == '\U{202f}' || c == '\U{205f}' || c == '\U{3000}'
  }

  /** Drops leading whitespace: what is dropped is whitespace, what is kept is a suffix. */
  function TrimLeft(s: string): (r: string)
    ensures |r| <= |s| && r == s[|s| - |r|..]
    ensures r == [] || !IsSpace(r[0])
    ensures forall i :: 0 <= i < |s| - |r| ==> IsSpace(s[i])
  {
    if |s| > 0 && IsSpace(s[0]) then TrimLeft(s[1..]) else s
  }

  /** Drops trailing whitespace: what is dropped is whitespace, what is kept is a prefix. */
  function TrimRight(s: string): (r: string)
    ensures |r| <= |s| && r == s[..|r|]
    ensures r == [] || !IsSpace(r[|r| - 1])
    ensures forall i :: |r| <= i < |s| ==> IsSpace(s[i])
  {
    if |s| > 0 && IsSpace(s[|s| - 1]) then TrimRight(s[..|s| - 1]) else s
  }

  /** t is s with some leading and some trailing whitespace removed, and nothing else. */
  predicate TrimmedFrom(t: string, s: string)
  {
    exists a :: 0 <= a <= |s| - |t| && t <= s[a..]
      && (forall i :: 0 <= i < a ==> IsSpace(s[i]))
      && (forall i :: a + |t| <= i < |s| ==> IsSpace(s[i]))
  }

  /** Python's str.strip() with no argument: all surrounding whitespace goes, the rest stays. */
  function Strip(s: string): (r: string)
    ensures TrimmedFrom(r, s)
    ensures r == [] || (!IsSpace(r[0]) && !IsSpace(r[|r| - 1]))
  {
    TrimBoth(s);
    TrimRight(TrimLeft(s))
  }

  /** What TrimLeft and TrimRight drop together is the whitespace around an infix. */
  lemma TrimBoth(s: string)
    ensures TrimmedFrom(TrimRight(TrimLeft(s)), s)
  {
    var l := TrimLeft(s);
    SpaceAround(s, l, TrimRight(l));
  }

  /** l is s after dropping leading whitespace, r is l after dropping trailing whitespace. */
  lemma SpaceAround(s: string, l: string, r: string)
    requires |l| <= |s| && l == s[|s| - |l|..] && forall i :: 0 <= i < |s| - |l| ==> IsSpace(s[i])
    requires |r| <= |l| && r == l[..|r|] && forall i :: |r| <= i < |l| ==> IsSpace(l[i])
    ensures TrimmedFrom(r, s)
  {
    var a := |s| - |l|;
    forall i | a + |r| <= i < |s|
      ensures IsSpace(s[i])
    {
      assert s[i] == l[i - a];
    }
    TrimmedAt(r, s, a);
  }

  /** TrimmedFrom with its witness given. */
  lemma TrimmedAt(t: string, s: string, a: int)
    requires 0 <= a <= |s| - |t| && t == s[a..a + |t|]
    requires forall i :: 0 <= i < a ==> IsSpace(s[i])
    requires forall i :: a + |t| <= i < |s| ==> IsSpace(s[i])
    ensures TrimmedFrom(t, s)
  {
    assert t <= s[a..];
  }

  /** A string without surrounding whitespace is its own strip. */
  lemma StripUnpadded(s: string)
    requires s == [] || (!IsSpace(s[0]) && !IsSpace(s[|s| - 1]))
    ensures Strip(s) == s
  {
    assert TrimLeft(s) == s;
  }

  lemma StripIdempotent(s: string)
    ensures Strip(Strip(s)) == Strip(s)
  {
    StripUnpadded(Strip(s));
  }

  // ---------------------------------------------------------------------
  // Decimal numerals, as pd.to_numeric and float() read them

  predicate IsDigit(c: char) { '0' <= c <= '9' }

  predicate AllDigits(s: string) { forall i :: 0 <= i < |s| ==> IsDigit(s[i]) }

  function DigitValue(c: char): nat
    requires IsDigit(c)
  {
    c as int - '0' as int
  }

  function DigitChar(d: nat): (c: char)
    requires d < 10
    ensures IsDigit(c) && DigitValue(c) == d
  {
    ['0', '1', '2', '3', '4', '5', '6', '7', '8', '9'][d]
  }

  /** The value of a string of decimal digits, most significant first. */
  function DigitsValue(s: string): nat
    requires AllDigits(s)
  {
    if s == [] then 0 else DigitsValue(s[..|s| - 1]) * 10 + DigitValue(s[|s| - 1])
  }

  function Pow10(n: nat): (p: nat)
    ensures p >= 1
  {
    if n == 0 then 1 else 10 * Pow10(n - 1)
  }

  /** Position of the first '.', or |s| when there is none. */
  function IndexOfDot(s: string): (i: nat)
    ensures i <= |s| && (i < |s| ==> s[i] == '.')
    ensures forall j :: 0 <= j < i ==> s[j] != '.'
  {
    if s == [] then 0 else if s[0] == '.' then 0 else 1 + IndexOfDot(s[1..])
  }

  /** digits, digits '.', '.' digits or digits '.' digits. */
  function ParseUnsigned(s: string): Option<real>
  {
    var i := IndexOfDot(s);
    var whole, frac := s[..i], if i < |s| then s[i + 1..] else [];
    if !(AllDigits(whole) && AllDigits(frac) && |whole| + |frac| > 0) then None
    else if frac == [] then Some(DigitsValue(whole) as real)
    else Some(DigitsValue(whole) as real + DigitsValue(frac) as real / Pow10(|frac|) as real)
  }

  /** A decimal numeral with an optional sign; None when the text is not one. */
  function ParseNumber(s: string): Option<real>
  {
    if |s| > 0 && (s[0] == '-' || s[0] == '+') then
      match ParseUnsigned(s[1..])
      case Some(v) => Some(if s[0] == '-' then -v else v)
      case None => None
    else
      ParseUnsigned(s)
  }

  function NatToString(n: nat): (s: string)
    ensures |s| > 0 && AllDigits(s)
  {
    if n < 10 then [DigitChar(n)] else NatToString(n / 10) + [DigitChar(n % 10)]
  }

  function IntToString(n: int): string
  {
    if n < 0 then "-" + NatToString(-n) else NatToString(n)
  }

  lemma {:induction false} DigitsOfNat(n: nat)
    ensures DigitsValue(NatToString(n)) == n
  {
    if n >= 10 {
      DigitsOfNat(n / 10);
      var s := NatToString(n);
      assert s[..|s| - 1] == NatToString(n / 10);
    }
  }

  lemma NoDotInDigits(s: string)
    requires AllDigits(s)
    ensures IndexOfDot(s) == |s|
  {
    if s != [] {
      NoDotInDigits(s[1..]);
    }
  }

  /** A non-empty string of digits reads as its value. */
  lemma ParseDigits(d: string)
    requires |d| > 0 && AllDigits(d)
    ensures ParseUnsigned(d) == Some(DigitsValue(d) as real)
  {
    NoDotInDigits(d);
    assert d[..IndexOfDot(d)] == d;
  }

  /** The decimal form of a natural number reads back as itself. */
  lemma ParseNatRoundTrip(m: nat)
    ensures ParseUnsigned(NatToString(m)) == Some(m as real)
  {
    DigitsOfNat(m);
    ParseDigits(NatToString(m));
  }

  /** A minus sign before a numeral negates what it reads as. */
  lemma ParseMinus(d: string, v: real)
    requires ParseUnsigned(d) == Some(v)
    ensures ParseNumber("-" + d) == Some(-v)
  {
    var s := "-" + d;
    assert s[0] == '-' && s[1..] == d;
  }

  /** Without a sign, a numeral reads as ParseUnsigned reads it. */
  lemma ParseNoSign(d: string)
    requires |d| > 0 && IsDigit(d[0])
    ensures ParseNumber(d) == ParseUnsigned(d)
  {
  }

  /** Every integer written in decimal reads back as itself. */
  lemma ParseIntRoundTrip(n: int)
    ensures ParseNumber(IntToString(n)) == Some(n as real)
  {
    if n < 0 {
      ParseNatRoundTrip(-n);
      ParseMinus(NatToString(-n), (-n) as real);
    } else {
      ParseNatRoundTrip(n);
      ParseNoSign(NatToString(n));
    }
  }

  /** A written integer has no surrounding whitespace. */
  lemma IntToStringUnpadded(n: int)
    ensures Strip(IntToString(n)) == IntToString(n)
  {
    var s := IntToString(n);
    var d := NatToString(if n < 0 then -n else n);
    assert IsDigit(d[0]) && IsDigit(d[|d| - 1]);
    assert s[|s| - 1] == d[|d| - 1];
    assert s[0] == '-' || s[0] == d[0];
    StripUnpadded(s);
  }

  /** A written integer, stripped, reads back as that integer. */
  lemma StrippedIntRoundTrip(n: int)
    ensures ParseNumber(Strip(IntToString(n))) == Some(n as real)
  {
    IntToStringUnpadded(n);
    ParseIntRoundTrip(n);
  }

  // ---------------------------------------------------------------------
  // Coercion

  /** pd.to_numeric(errors="coerce") on one entry: unparsable text becomes NaN. */
  function ToNumeric(c: Cell): (r: Cell)
    ensures !r.Text?
    ensures c.Num? || c.Missing? ==> r == c
  {
    match c
    case Num(_) => c
    case Missing => Missing
    case Text(t) => match ParseNumber(t) case Some(v) => Num(v) case None => Missing
  }

  function ToNumericCol(col: seq<Cell>): (r: seq<Cell>)
    ensures |r| == |col| && IsNumeric(r)
    ensures IsNumeric(col) ==> r == col
  {
    seq(|col|, i requires 0 <= i < |col| => ToNumeric(col[i]))
  }

  /** str(x) for an entry of an object column: NaN prints as "nan". */
  function AsStr(c: Cell): string
    requires !c.Num?
  {
    match c
    case Text(t) => t
    case Missing => "nan"
  }

  /**
   * s.astype(str).str.strip() on one entry of an object column: a string with
   * its surrounding whitespace removed, which NaN turns into "nan".
   */
  function StripCell(c: Cell): (r: Cell)
    requires !c.Num?
    ensures r.Text? && Strip(r.s) == r.s
    ensures c.Text? ==> TrimmedFrom(r.s, c.s)
    ensures c.Missing? ==> r == Text("nan")
  {
    var s := AsStr(c);
    StripIdempotent(s);
    if c.Missing? then StripNan(); Text(Strip(s)) else Text(Strip(s))
  }

  /** Strip on an entry of an object column that is NaN. */
  lemma StripNan()
    ensures Strip(AsStr(Missing)) == "nan"
  {
    var s := AsStr(Missing);
    assert s == "nan";
    StripUnpadded(s);
  }
}
