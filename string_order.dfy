/**
 * Python's ordering of str values: lexicographic by code point, a proper
 * prefix coming first. sorted() on strings uses this order.
 */
module StringOrder {

  predicate Less(a: string, b: string)
  {
    if a == [] then b != []
    else if b == [] then false
    else if a[0] != b[0] then a[0] < b[0]
    else Less(a[1..], b[1..])
  }

  lemma {:induction false} LessIrreflexive(a: string)
    ensures !Less(a, a)
  {
    if a != [] {
      LessIrreflexive(a[1..]);
    }
  }

  lemma {:induction false} LessTransitive(a: string, b: string, c: string)
    requires Less(a, b) && Less(b, c)
    ensures Less(a, c)
  {
    if a != [] && b != [] && c != [] && a[0] == b[0] == c[0] {
      LessTransitive(a[1..], b[1..], c[1..]);
    }
  }

  lemma {:induction false} LessTotal(a: string, b: string)
    ensures a == b || Less(a, b) || Less(b, a)
  {
    if a != [] && b != [] && a[0] == b[0] {
      LessTotal(a[1..], b[1..]);
      if a[1..] == b[1..] {
        assert a == [a[0]] + a[1..] && b == [b[0]] + b[1..];
      }
    }
  }

  lemma LessAsymmetric(a: string, b: string)
    requires Less(a, b)
    ensures !Less(b, a)
  {
    if Less(b, a) {
      LessTransitive(a, b, a);
      LessIrreflexive(a);
    }
  }

  /** Strictly increasing: sorted and without repetition. */
  predicate StrictlySorted(s: seq<string>)
  {
    forall i, j :: 0 <= i < j < |s| ==> Less(s[i], s[j])
  }

  /** The least element of a non-empty finite set of strings. */
  method Least(vals: set<string>) returns (m: string)
    requires vals != {}
    ensures m in vals
    ensures forall v :: v in vals && v != m ==> Less(m, v)
  {
    m :| m in vals;
    var rest := vals - {m};
    ghost var seen := {m};
    while rest != {}
      invariant rest + seen == vals && rest !! seen
      invariant m in seen
      invariant forall v :: v in seen && v != m ==> Less(m, v)
      decreases rest
    {
      var v :| v in rest;
      LessTotal(m, v);
      if Less(v, m) {
        forall w | w in seen && w != v ensures Less(v, w) {
          if w != m {
            LessTransitive(v, m, w);
          }
        }
        m := v;
      }
      rest, seen := rest - {v}, seen + {v};
    }
  }

  /**
   * sorted(vals)[:limit]: the up to `limit` smallest values in increasing order;
   * every value left out is larger than every value shown.
   */
  method SortedPrefix(vals: set<string>, limit: nat) returns (r: seq<string>)
    ensures StrictlySorted(r)
    ensures |r| == if |vals| < limit then |vals| else limit
    ensures forall i :: 0 <= i < |r| ==> r[i] in vals
    ensures forall v, i :: v in vals && 0 <= i < |r| && v !in r ==> Less(r[i], v)
  {
    r := [];
    var rest := vals;
    while |r| < limit && rest != {}
      invariant rest <= vals
      invariant |r| + |rest| == |vals| && |r| <= limit
      invariant StrictlySorted(r)
      invariant forall i :: 0 <= i < |r| ==> r[i] in vals && r[i] !in rest
      invariant forall v :: v in vals && v !in r ==> v in rest
      invariant forall v, i :: v in rest && 0 <= i < |r| ==> Less(r[i], v)
      decreases |rest|
    {
      var m := Least(rest);
      r, rest := r + [m], rest - {m};
    }
    forall v, i | v in vals && 0 <= i < |r| && v !in r ensures Less(r[i], v) {
      assert v in rest;
    }
  }
}
