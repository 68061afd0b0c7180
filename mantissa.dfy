/**
  Extraction of the leading mantissa bits of the exact sum into a fixed-width
  big-endian byte buffer.

  With L the bit length of the integer part of the sum, the sum is scaled by
  2^(nb - L) and truncated to an integer, which is then written big-endian
  into a zero-padded buffer of nBytes bytes.
*/
module Mantissa {
  import opened Powers
  import opened Rationals

  newtype byte = x: int | 0 <= x < 256

  function Abs(x: int): (r: nat)
  {
    if x < 0 then -x else x
  }

  /** Integer quotient of a rational's numerator by its denominator: the
      quotient is truncated toward zero. */
  function Trunc(x: real): (r: int)
  {
    if x >= 0.0 then x.Floor else -((-x).Floor)
  }

  /** Truncation toward zero: the result is the integer next to x on the side of 0. */
  lemma TruncTowardZero(x: real)
    ensures 0.0 <= x ==> Trunc(x) >= 0 && Trunc(x) as real <= x < Trunc(x) as real + 1.0
    ensures x < 0.0 ==> Trunc(x) <= 0 && Trunc(x) as real - 1.0 < x <= Trunc(x) as real
  {
  }

  /** Number of binary digits of x (0 for x = 0). */
  function BitLen(x: nat): (r: nat)
    ensures x == 0 ==> r == 0
    ensures x < Pow2(r)
    ensures x >= 1 ==> r >= 1 && Pow2(r - 1) <= x
  {
    if x == 0 then 0 else 1 + BitLen(x / 2)
  }

  /** The bit length is the unique r with 2^(r-1) <= x < 2^r. */
  lemma BitLenUnique(x: nat, r: nat)
    requires r >= 1 && Pow2(r - 1) <= x < Pow2(r)
    ensures BitLen(x) == r
  {
    var b := BitLen(x);
    if b < r {
      Pow2Monotone(b, r - 1);
    } else if b > r {
      Pow2Monotone(r, b - 1);
    }
  }

  /** 2^e as computed by an integer power with no modulus: an exponent that
      is not positive gives 1. */
  function ExpOrOne(e: int): (r: nat)
  {
    if e <= 0 then 1 else Pow2(e)
  }

  /** Bit length of the integer part of piR, the exponent L of the extraction. */
  function IntegerPartBits(piR: real): (r: nat)
  {
    BitLen(Abs(Trunc(piR)))
  }

  /** piR scaled by 2^(nb - l) and truncated to an integer. */
  function ScaledTrunc(piR: real, nb: int, l: nat): (r: int)
  {
    Trunc(ExpOrOne(nb - l) as real * piR)
  }

  /** The extracted integer: piR scaled by 2^(nb - L), truncated, where L is
      the bit length of its integer part. */
  function MantissaInt(piR: real, nb: int): (r: int)
  {
    ScaledTrunc(piR, nb, IntegerPartBits(piR))
  }

  lemma TruncNegate(x: real)
    ensures Trunc(-x) == -Trunc(x)
  {
  }

  /** x doubled k times. */
  function Doubled(x: real, k: nat): (r: real)
  {
    if k == 0 then x else 2.0 * Doubled(x, k - 1)
  }

  lemma {:induction false} DoubledIsProduct(x: real, k: nat)
    ensures Pow2(k) as real * x == Doubled(x, k)
  {
    if k > 0 {
      DoubledIsProduct(x, k - 1);
      var p := Pow2(k - 1) as real;
      assert Pow2(k) as real == 2.0 * p;
      assert (2.0 * p) * x == 2.0 * (p * x);
    }
  }

  lemma ScaledIsDoubled(s: nat, x: real, k: nat)
    requires s == Pow2(k)
    ensures s as real * x == Doubled(x, k)
  {
    DoubledIsProduct(x, k);
  }

  lemma {:induction false} DoubledNegate(x: real, k: nat)
    ensures Doubled(-x, k) == -Doubled(x, k)
  {
    if k > 0 {
      DoubledNegate(x, k - 1);
    }
  }

  /** Doubling k times moves a value from [2^(l-1), 2^l) to [2^(l-1+k), 2^(l+k)). */
  lemma {:induction false} DoubledBounds(x: real, l: nat, k: nat)
    requires 0.0 <= x < Pow2(l) as real
    ensures 0.0 <= Doubled(x, k) < Pow2(l + k) as real
    ensures l >= 1 && Pow2(l - 1) as real <= x ==> Pow2(l - 1 + k) as real <= Doubled(x, k)
  {
    if k > 0 {
      DoubledBounds(x, l, k - 1);
      assert Pow2(l + k) == 2 * Pow2(l + k - 1);
      if l >= 1 {
        assert Pow2(l - 1 + k) == 2 * Pow2(l - 1 + k - 1);
      }
    }
  }

  /** The magnitude of piR: the absolute value of a rational. */
  function Magnitude(x: real): (r: real)
    ensures r >= 0.0
  {
    if x < 0.0 then -x else x
  }

  /** The magnitude of piR lies below 2^L, and at or above 2^(L-1) when its
      integer part is not 0. */
  lemma IntegerPartBounds(piR: real)
    ensures Magnitude(piR) < Pow2(IntegerPartBits(piR)) as real
    ensures Abs(Trunc(piR)) >= 1 ==>
              IntegerPartBits(piR) >= 1 && Pow2(IntegerPartBits(piR) - 1) as real <= Magnitude(piR)
  {
    var m := Abs(Trunc(piR));
    assert m == Trunc(Magnitude(piR));
    TruncTowardZero(Magnitude(piR));
    var l := BitLen(m);
    assert m < Pow2(l);
    assert m + 1 <= Pow2(l);
  }

  lemma TruncBelow(s: real, bound: nat)
    requires 0.0 <= s < bound as real
    ensures 0 <= Trunc(s) < bound
  {
    TruncTowardZero(s);
  }

  lemma TruncAbove(s: real, bound: nat)
    requires bound as real <= s
    ensures bound <= Trunc(s)
  {
    TruncTowardZero(s);
  }

  /** When the width covers the integer part, the extracted integer is piR
      doubled nb - L times, truncated. */
  lemma ScaledTruncByDoubling(piR: real, nb: nat, l: nat)
    requires l <= nb
    ensures ScaledTrunc(piR, nb, l) == Trunc(Doubled(piR, nb - l))
  {
    ScaledIsDoubled(ExpOrOne(nb - l), piR, nb - l);
  }

  /** A non-negative sum extracts to a non-negative integer. */
  lemma MantissaNonNegative(piR: real, nb: int)
    requires piR >= 0.0
    ensures MantissaInt(piR, nb) >= 0
  {
    var l := IntegerPartBits(piR);
    var c := ExpOrOne(nb - l) as real;
    assert c >= 1.0;
    assert c * piR >= 0.0;
    TruncTowardZero(c * piR);
  }

  /** When the target width nb covers the integer part, the extracted integer
      needs at most nb bits, and exactly nb bits when the integer part is at
      least 1. */
  lemma MantissaBounds(piR: real, nb: nat)
    requires IntegerPartBits(piR) <= nb
    ensures Abs(MantissaInt(piR, nb)) < Pow2(nb)
    ensures Abs(Trunc(piR)) >= 1 ==>
              nb >= 1 && Pow2(nb - 1) <= Abs(MantissaInt(piR, nb))
  {
    var l := IntegerPartBits(piR);
    var k := nb - l;
    ScaledTruncByDoubling(piR, nb, l);
    IntegerPartBounds(piR);
    DoubledBounds(Magnitude(piR), l, k);
    assert Abs(MantissaInt(piR, nb)) == Trunc(Doubled(Magnitude(piR), k)) by {
      if piR < 0.0 {
        DoubledNegate(Magnitude(piR), k);
        TruncNegate(Doubled(Magnitude(piR), k));
        TruncTowardZero(Doubled(Magnitude(piR), k));
      }
    }
    assert l + k == nb;
    TruncBelow(Doubled(Magnitude(piR), k), Pow2(nb));
    if Abs(Trunc(piR)) >= 1 {
      assert l - 1 + k == nb - 1;
      TruncAbove(Doubled(Magnitude(piR), k), Pow2(nb - 1));
    }
  }

  /** The len-byte big-endian encoding of x modulo 256^len: the most
      significant byte first. */
  function ToBigEndian(x: nat, len: nat): (s: seq<byte>)
    ensures |s| == len
  {
    if len == 0 then [] else ToBigEndian(x / 256, len - 1) + [(x % 256) as byte]
  }

  /** The unsigned value of a big-endian byte sequence. */
  function FromBigEndian(s: seq<byte>): (x: nat)
    ensures x < Pow256(|s|)
  {
    if s == [] then 0 else FromBigEndian(s[..|s| - 1]) * 256 + s[|s| - 1] as nat
  }

  /** Decoding the encoding of a value that fits gives the value back. */
  lemma {:induction false} DecodeEncode(x: nat, len: nat)
    requires x < Pow256(len)
    ensures FromBigEndian(ToBigEndian(x, len)) == x
  {
    if len > 0 {
      var s := ToBigEndian(x, len);
      assert s[..len - 1] == ToBigEndian(x / 256, len - 1);
      DecodeEncode(x / 256, len - 1);
    }
  }

  /** Encoding the value of a byte sequence at its own length gives it back. */
  lemma {:induction false} EncodeDecode(s: seq<byte>)
    ensures ToBigEndian(FromBigEndian(s), |s|) == s
  {
    if s != [] {
      var x := FromBigEndian(s);
      var init := s[..|s| - 1];
      assert x / 256 == FromBigEndian(init);
      assert x % 256 == s[|s| - 1] as nat;
      EncodeDecode(init);
      assert s == init + [s[|s| - 1]];
    }
  }

  /** A value below 256^k occupies only the last k bytes: all bytes before
      them are zero. */
  lemma {:induction false} ZeroPadding(x: nat, len: nat, k: nat)
    requires k <= len && x < Pow256(k)
    ensures forall j :: 0 <= j < len - k ==> ToBigEndian(x, len)[j] == 0
  {
    if len > k {
      if k == 0 {
        assert x == 0;
        ZeroValueEncoding(len);
      } else {
        assert x / 256 < Pow256(k - 1);
        ZeroPadding(x / 256, len - 1, k - 1);
      }
    }
  }

  lemma {:induction false} ZeroValueEncoding(len: nat)
    ensures forall j :: 0 <= j < len ==> ToBigEndian(0, len)[j] == 0
  {
    if len > 0 {
      ZeroValueEncoding(len - 1);
    }
  }

  /** x with its low m bytes dropped (x / 256^m). */
  function DropBytes(x: nat, m: nat): (r: nat)
  {
    if m == 0 then x else DropBytes(x / 256, m - 1)
  }

  lemma {:induction false} DropOneMore(x: nat, m: nat)
    ensures DropBytes(x, m + 1) == DropBytes(x, m) / 256
  {
    if m > 0 {
      DropOneMore(x / 256, m - 1);
    }
  }

  /** Nothing is left after dropping len bytes exactly when x fits in len bytes. */
  lemma {:induction false} DropAllBytes(x: nat, len: nat)
    ensures DropBytes(x, len) == 0 <==> x < Pow256(len)
  {
    if len > 0 {
      DropAllBytes(x / 256, len - 1);
    }
  }

  /** One more byte of the encoding is the next byte up, placed in front. */
  lemma {:induction false} ToBigEndianPrepend(x: nat, m: nat)
    ensures ToBigEndian(x, m + 1) == [(DropBytes(x, m) % 256) as byte] + ToBigEndian(x, m)
  {
    if m > 0 {
      ToBigEndianPrepend(x / 256, m - 1);
    }
  }

  /** big.Int.FillBytes: clear buf, then write |x| big-endian into it, low
      byte last. Returns false exactly where the library panics because |x|
      does not fit in buf; the contents of buf are then unspecified. */
  method FillBytes(x: int, buf: array<byte>) returns (ok: bool)
    modifies buf
    ensures ok <==> Abs(x) < Pow256(buf.Length)
    ensures ok ==> buf[..] == ToBigEndian(Abs(x), buf.Length)
  {
    var j := 0;
    while j < buf.Length
      invariant 0 <= j <= buf.Length
      invariant forall k :: 0 <= k < j ==> buf[k] == 0
    {
      buf[j] := 0;
      j := j + 1;
    }
    var v := Abs(x);
    var i := buf.Length;
    while i > 0
      invariant 0 <= i <= buf.Length
      invariant v == DropBytes(Abs(x), buf.Length - i)
      invariant buf[i..] == ToBigEndian(Abs(x), buf.Length - i)
    {
      ToBigEndianPrepend(Abs(x), buf.Length - i);
      DropOneMore(Abs(x), buf.Length - i);
      buf[i - 1] := (v % 256) as byte;
      v := v / 256;
      i := i - 1;
    }
    ok := v == 0;
    DropAllBytes(Abs(x), buf.Length);
    assert buf[..] == buf[0..];
  }
}
