/**
  The exact-rational accumulation of the series.

  The accumulator starts at 0 and each unit of work's term is added as it
  arrives. Arrival order is whatever the scheduler makes it; exact addition
  does not depend on it, which is what the permutation lemmas establish.
*/
module Summation {
  import opened Powers
  import opened Rationals
  import opened BbpTerms

  /** The value of an accumulator that starts at 0 and adds s[0], s[1], ... in turn. */
  function Sum(s: seq<real>): (r: real)
  {
    if s == [] then 0.0 else Sum(s[..|s| - 1]) + s[|s| - 1]
  }

  lemma {:induction false} SumConcat(a: seq<real>, b: seq<real>)
    ensures Sum(a + b) == Sum(a) + Sum(b)
  {
    if b != [] {
      assert (a + b)[..|a + b| - 1] == a + b[..|b| - 1];
      SumConcat(a, b[..|b| - 1]);
    } else {
      assert a + b == a;
    }
  }

  /** Adding the same terms in any order gives the same exact sum. */
  lemma {:induction false} SumPermutation(a: seq<real>, b: seq<real>)
    requires multiset(a) == multiset(b)
    ensures Sum(a) == Sum(b)
    decreases |a|
  {
    if a == [] {
      assert |b| == |multiset(b)| == 0;
    } else {
      var x := a[|a| - 1];
      assert x in multiset(b);
      var j :| 0 <= j < |b| && b[j] == x;
      var rest := b[..j] + b[j + 1..];
      assert b == b[..j] + [x] + b[j + 1..];
      assert a == a[..|a| - 1] + [x];
      assert multiset(a) == multiset(a[..|a| - 1]) + multiset([x]);
      assert multiset(b) == multiset(b[..j]) + multiset([x]) + multiset(b[j + 1..]);
      assert multiset(rest) == multiset(b[..j]) + multiset(b[j + 1..]);
      assert multiset(a[..|a| - 1]) == multiset(a) - multiset{x};
      assert multiset(rest) == multiset(b) - multiset{x};
      SumPermutation(a[..|a| - 1], rest);
      SumConcat(b[..j] + [x], b[j + 1..]);
      SumConcat(b[..j], [x]);
      SumConcat(b[..j], b[j + 1..]);
      assert Sum([x]) == x by {
        assert [x][..0] == [];
      }
    }
  }

  /** The indices 0, 1, ..., n-1 in increasing order. */
  function Indices(n: nat): (r: seq<nat>)
    ensures |r| == n
    ensures forall k :: 0 <= k < n ==> r[k] == k
  {
    if n == 0 then [] else Indices(n - 1) + [n - 1]
  }

  /** The terms of the given indices, in that order. */
  function TermsAt(order: seq<nat>): (r: seq<real>)
  {
    seq(|order|, k requires 0 <= k < |order| => Term(order[k]))
  }

  /** The first n terms of the series, in index order. */
  function InOrder(n: nat): (r: seq<real>)
  {
    TermsAt(Indices(n))
  }

  /** The exact partial sum T(0) + ... + T(n-1). */
  function Series(n: nat): (r: real)
  {
    Sum(InOrder(n))
  }

  lemma TermsAtConcat(a: seq<nat>, b: seq<nat>)
    ensures TermsAt(a + b) == TermsAt(a) + TermsAt(b)
  {
  }

  /** Reordering the indices reorders their terms. */
  lemma {:induction false} TermsPermuted(a: seq<nat>, b: seq<nat>)
    requires multiset(a) == multiset(b)
    ensures multiset(TermsAt(a)) == multiset(TermsAt(b))
    decreases |a|
  {
    if a == [] {
      assert |b| == |multiset(b)| == 0;
    } else {
      var x := a[|a| - 1];
      assert x in multiset(b);
      var j :| 0 <= j < |b| && b[j] == x;
      var rest := b[..j] + b[j + 1..];
      assert b == b[..j] + [x] + b[j + 1..];
      assert a == a[..|a| - 1] + [x];
      assert multiset(a) == multiset(a[..|a| - 1]) + multiset([x]);
      assert multiset(b) == multiset(b[..j]) + multiset([x]) + multiset(b[j + 1..]);
      assert multiset(rest) == multiset(b[..j]) + multiset(b[j + 1..]);
      assert multiset(a[..|a| - 1]) == multiset(a) - multiset{x};
      assert multiset(rest) == multiset(b) - multiset{x};
      TermsPermuted(a[..|a| - 1], rest);
      TermsAtConcat(a[..|a| - 1], [x]);
      TermsAtConcat(b[..j] + [x], b[j + 1..]);
      TermsAtConcat(b[..j], [x]);
      TermsAtConcat(b[..j], b[j + 1..]);
    }
  }

  lemma SeriesStep(n: nat)
    ensures Series(n + 1) == Series(n) + Term(n)
  {
    assert Indices(n + 1) == Indices(n) + [n];
    TermsAtConcat(Indices(n), [n]);
    assert InOrder(n + 1)[..n] == InOrder(n);
  }

  /** The drain loop: the accumulator starts at 0 and adds each received
      result in the order received. */
  method Accumulate(results: seq<real>) returns (acc: real)
    ensures acc == Sum(results)
  {
    acc := 0.0;
    var k := 0;
    while k < |results|
      invariant 0 <= k <= |results|
      invariant acc == Sum(results[..k])
    {
      assert results[..k + 1][..k] == results[..k];
      acc := acc + results[k];
      k := k + 1;
    }
    assert results[..k] == results;
  }

  /** Whatever order the n results arrive in, the accumulator ends at the
      partial sum of the first n terms. */
  lemma ArrivalOrderIrrelevant(results: seq<real>, n: nat)
    requires multiset(results) == multiset(InOrder(n))
    ensures Sum(results) == Series(n)
  {
    SumPermutation(results, InOrder(n));
  }

  /** The exact-rational run: one rational worker per index, their results
      delivered in the order `arrival` (each index exactly once), then drained
      into the accumulator. */
  method PiRational(n: nat, arrival: seq<nat>) returns (piR: real)
    requires multiset(arrival) == multiset(Indices(n))
    ensures piR == Series(n)
  {
    var results: seq<real> := [];
    var k := 0;
    while k < |arrival|
      invariant 0 <= k <= |arrival|
      invariant results == TermsAt(arrival[..k])
    {
      var t := RatWorker(arrival[k]);
      assert arrival[..k + 1] == arrival[..k] + [arrival[k]];
      TermsAtConcat(arrival[..k], [arrival[k]]);
      results := results + [t];
      k := k + 1;
    }
    assert arrival[..k] == arrival;
    piR := Accumulate(results);
    TermsPermuted(arrival, Indices(n));
    ArrivalOrderIrrelevant(results, n);
  }

  /** The first term is 47/15. */
  lemma FirstTerm()
    ensures Term(0) == 47.0 / 15.0
  {
    assert Divisor(0) == 1.0;
    assert QuotientSum(0) == 4.0 - 1.0 / 2.0 - 1.0 / 5.0 - 1.0 / 6.0;
  }

  /** Every term is positive and below 4 / 16^i. */
  lemma TermBounds(i: nat)
    ensures 0.0 < Term(i) < 4.0 / Divisor(i)
  {
    QuotientSumBounds(i);
    DivPreservesOrder(0.0, QuotientSum(i), Divisor(i));
    DivPreservesOrder(QuotientSum(i), 4.0, Divisor(i));
  }

  lemma {:induction false} SeriesLower(n: nat)
    requires n >= 1
    ensures Series(n) >= 47.0 / 15.0
  {
    if n == 1 {
      SeriesStep(0);
      FirstTerm();
    } else {
      SeriesLower(n - 1);
      SeriesStep(n - 1);
      TermBounds(n - 1);
    }
  }

  /** The tail bound shrinks by exactly the largest next term:
      (4/15)/d - 4/(16d) = (4/15)/(16d). */
  lemma GeometricStep(d: real)
    requires d > 0.0
    ensures (4.0 / 15.0) / d - 4.0 / (16.0 * d) == (4.0 / 15.0) / (16.0 * d)
  {
    DivMul(4.0 / 15.0, d);
    DivMul(4.0, 16.0 * d);
    DivMul(4.0 / 15.0, 16.0 * d);
    var u, v, w := (4.0 / 15.0) / d, 4.0 / (16.0 * d), (4.0 / 15.0) / (16.0 * d);
    assert u * d == 4.0 / 15.0;
    assert v * d == 1.0 / 4.0;
    assert w * d == 1.0 / 60.0;
    assert (u - v - w) * d == 0.0;
  }

  lemma {:induction false} SeriesUpper(n: nat)
    requires n >= 1
    ensures Series(n) <= 51.0 / 15.0 - (4.0 / 15.0) / Divisor(n - 1)
  {
    if n == 1 {
      SeriesStep(0);
      FirstTerm();
      assert Divisor(0) == 1.0;
    } else {
      SeriesUpper(n - 1);
      SeriesStep(n - 1);
      TermBounds(n - 1);
      var d := Divisor(n - 2);
      assert Divisor(n - 1) == 16.0 * d;
      GeometricStep(d);
    }
  }

  /** For at least one term the partial sum lies in [47/15, 51/15), so its
      integer part is 3. */
  lemma SeriesIntegerPart(n: nat)
    requires n >= 1
    ensures 3.0 < Series(n) < 4.0
    ensures Series(n).Floor == 3
  {
    SeriesLower(n);
    SeriesUpper(n);
    DivPreservesOrder(0.0, 4.0 / 15.0, Divisor(n - 1));
  }
}
