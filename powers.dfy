/** Exact powers of 2, 16 and 256 used by the term generator and the mantissa extractor. */
module Powers {

  /** 2^e */
  function Pow2(e: nat): (r: nat)
    ensures r >= 1
  {
    if e == 0 then 1 else 2 * Pow2(e - 1)
  }

  /** 16^i, the divisor of the i-th series term */
  function Pow16(i: nat): (r: nat)
    ensures r >= 1
  {
    if i == 0 then 1 else 16 * Pow16(i - 1)
  }

  /** 256^k, one more than the largest value k bytes can hold */
  function Pow256(k: nat): (r: nat)
    ensures r >= 1
  {
    if k == 0 then 1 else 256 * Pow256(k - 1)
  }

  lemma {:induction false} Pow2Add(a: nat, b: nat)
    ensures Pow2(a + b) == Pow2(a) * Pow2(b)
  {
    if a > 0 {
      Pow2Add(a - 1, b);
      assert Pow2(a + b) == 2 * Pow2(a - 1 + b);
    }
  }

  lemma {:induction false} Pow2Monotone(a: nat, b: nat)
    requires a <= b
    ensures Pow2(a) <= Pow2(b)
  {
    if a < b {
      Pow2Monotone(a, b - 1);
    }
  }

  /** 16^i = 2^(4i): every power of 16 is a power of two, so a binary float holds it exactly. */
  lemma {:induction false} Pow16IsPow2(i: nat)
    ensures Pow16(i) == Pow2(4 * i)
  {
    if i > 0 {
      Pow16IsPow2(i - 1);
      Pow2Add(4, 4 * (i - 1));
      assert 4 * i == 4 + 4 * (i - 1);
    }
  }

  /** 256^k = 2^(8k): a buffer of k bytes holds exactly the values below 2^(8k). */
  lemma {:induction false} Pow256IsPow2(k: nat)
    ensures Pow256(k) == Pow2(8 * k)
  {
    if k > 0 {
      Pow256IsPow2(k - 1);
      Pow2Add(8, 8 * (k - 1));
      assert 8 * k == 8 + 8 * (k - 1);
    }
  }
}
