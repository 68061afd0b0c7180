/**
  The Bailey-Borwein-Plouffe term generator over exact rationals.

  For index i the series contributes
      T(i) = (4/(8i+1) - 2/(8i+4) - 1/(8i+5) - 1/(8i+6)) / 16^i.
  Two strategies build it: the rational worker recomputes 16^i by repeated
  multiplication on every call, and the incremental strategy precomputes one
  record per index whose power is carried from the previous index.
*/
module BbpTerms {
  import opened Powers
  import opened Rationals

  /** The four quotients of index i combined, before the division by 16^i.
      Every divisor is at least 1 for i >= 0, so each quotient is defined. */
  function QuotientSum(i: nat): (r: real)
  {
    var c2 := 8.0 * i as real;
    var t1 := 4.0 / (c2 + 1.0);
    var t2 := 2.0 / (c2 + 4.0);
    var t3 := 1.0 / (c2 + 5.0);
    var t4 := 1.0 / (c2 + 6.0);
    t1 - t2 - t3 - t4
  }

  /** The divisor 16^i of the i-th term, as an exact rational. */
  function Divisor(i: nat): (r: real)
    ensures r >= 1.0
  {
    Pow16(i) as real
  }

  /** The i-th term of the series. */
  function Term(i: nat): (r: real)
  {
    QuotientSum(i) / Divisor(i)
  }

  /** Numerator and denominator of the four quotients brought to one fraction. */
  function ClosedNumerator(i: nat): (r: int)
  {
    120 * i * i + 151 * i + 47
  }

  function ClosedDenominator(i: nat): (r: int)
  {
    512 * i * i * i * i + 1024 * i * i * i + 712 * i * i + 194 * i + 15
  }

  /** The numerator of the paired quotients, with x = 8i. */
  lemma PairedNumerator(x: real)
    ensures (2.0 * x + 14.0) * ((x + 5.0) * (x + 6.0)) - (2.0 * x + 11.0) * ((x + 1.0) * (x + 4.0))
         == 15.0 * x * x + 151.0 * x + 376.0
  {
  }

  lemma PairedDenominator(i: nat)
    ensures ((8.0 * i as real + 1.0) * (8.0 * i as real + 4.0)) * ((8.0 * i as real + 5.0) * (8.0 * i as real + 6.0))
         == 8.0 * ClosedDenominator(i) as real
  {
  }

  /** Pairing the first two and the last two quotients, with x = 8i. */
  lemma QuotientSumPaired(i: nat)
    ensures var x := 8.0 * i as real;
            QuotientSum(i) == (15.0 * x * x + 151.0 * x + 376.0) / (((x + 1.0) * (x + 4.0)) * ((x + 5.0) * (x + 6.0)))
  {
    var x := 8.0 * i as real;
    SubFractions(4.0, x + 1.0, 2.0, x + 4.0);
    AddFractions(1.0, x + 5.0, 1.0, x + 6.0);
    var p := (x + 1.0) * (x + 4.0);
    var q := (x + 5.0) * (x + 6.0);
    assert 4.0 / (x + 1.0) - 2.0 / (x + 4.0) == (2.0 * x + 14.0) / p;
    assert 1.0 / (x + 5.0) + 1.0 / (x + 6.0) == (2.0 * x + 11.0) / q;
    SubFractions(2.0 * x + 14.0, p, 2.0 * x + 11.0, q);
    PairedNumerator(x);
  }

  /** The four quotients equal the single fraction
      (120i^2 + 151i + 47) / (512i^4 + 1024i^3 + 712i^2 + 194i + 15),
      the usual reduced form of the BBP summand. */
  lemma QuotientSumClosedForm(i: nat)
    ensures ClosedDenominator(i) > 0
    ensures QuotientSum(i) == ClosedNumerator(i) as real / ClosedDenominator(i) as real
  {
    QuotientSumPaired(i);
    PairedDenominator(i);
    var x := 8.0 * i as real;
    var num := 15.0 * x * x + 151.0 * x + 376.0;
    var cn := ClosedNumerator(i) as real;
    var cd := ClosedDenominator(i) as real;
    assert num == 8.0 * cn;
    assert cd > 0.0;
    assert QuotientSum(i) == (8.0 * cn) / (8.0 * cd);
    assert (8.0 * cn) / (8.0 * cd) == cn / cd;
  }

  /** Each combined quotient lies strictly between 0 and 4, so every term is positive. */
  lemma QuotientSumBounds(i: nat)
    ensures 0.0 < QuotientSum(i) < 4.0
  {
    var c2 := 8.0 * i as real;
    DivDecreasing(4.0, c2 + 1.0, c2 + 4.0);
    DivDecreasing(1.0, c2 + 4.0, c2 + 5.0);
    DivDecreasing(1.0, c2 + 4.0, c2 + 6.0);
    assert 4.0 / (c2 + 4.0) - 2.0 / (c2 + 4.0) - 1.0 / (c2 + 4.0) - 1.0 / (c2 + 4.0) == 0.0;
    assert 4.0 / (c2 + 1.0) <= 4.0;
  }

  /** The power loop of the rational worker: C1 starts at 1 and is multiplied
      by 16, id times. */
  method PowerOf16(id: nat) returns (c1: real)
    ensures c1 == Divisor(id)
  {
    c1 := 1.0;
    var i := 0;
    while i < id
      invariant 0 <= i <= id
      invariant c1 == Divisor(i)
    {
      c1 := c1 * 16.0;
      i := i + 1;
    }
  }

  /** The exact-rational worker for index id: the power loop, then the
      sequence of in-place additions, quotients and subtractions on T1..T4, R. */
  method RatWorker(id: nat) returns (r: real)
    ensures r == Term(id)
  {
    var c1 := PowerOf16(id);
    var c2 := 8.0 * id as real;
    var t1 := c2 + 1.0;
    t1 := 4.0 / t1;
    var t2 := c2 + 4.0;
    t2 := 2.0 / t2;
    var t3 := c2 + 5.0;
    t3 := 1.0 / t3;
    var t4 := c2 + 6.0;
    t4 := 1.0 / t4;
    r := t1 - t2;
    r := r - t3;
    r := r - t4;
    r := r / c1;
  }

  /** One precomputed unit of work of the incremental strategy: the index and
      the snapshot of the running power taken for it. */
  datatype Worker = Worker(index: nat, power: real)

  /** What the unit of work computes: the four quotients, divided by the
      captured power except at index 0. */
  function RunWorker(w: Worker): (r: real)
    requires w.power != 0.0
  {
    var q := QuotientSum(w.index);
    if w.index != 0 then q / w.power else q
  }

  /** The incremental strategy's table: a running power starts at 1, is copied
      into the record of index i, and is multiplied by 16 once per index after
      the copy. */
  method GenWorkers(n: nat) returns (workers: array<Worker>)
    ensures fresh(workers)
    ensures workers.Length == n
    ensures forall i :: 0 <= i < n ==>
              workers[i] == Worker(i, Divisor(i)) && RunWorker(workers[i]) == Term(i)
  {
    workers := new Worker[n];
    var c1 := 1.0;
    var i := 0;
    while i < n
      invariant 0 <= i <= n
      invariant c1 == Divisor(i)
      invariant forall k :: 0 <= k < i ==> workers[k] == Worker(k, Divisor(k))
    {
      var c1n := c1;
      workers[i] := Worker(i, c1n);
      c1 := c1 * 16.0;
      i := i + 1;
    }
    forall k | 0 <= k < n
      ensures RunWorker(workers[k]) == Term(k)
    {
      IncrementalMatchesRecompute(k);
    }
  }

  /** The incremental record of index i yields the same term as recomputing
      the power; at index 0 the skipped division is by 16^0 = 1. */
  lemma IncrementalMatchesRecompute(i: nat)
    ensures RunWorker(Worker(i, Divisor(i))) == Term(i)
  {
    if i == 0 {
      assert Divisor(0) == 1.0;
    }
  }
}
