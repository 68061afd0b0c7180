/**
  The exact-rational run of the calculator: derive the parameters from the
  buffer size, sum the series over rationals, extract the mantissa and fill
  the big-endian buffer.
*/
module Pi {
  import opened Powers
  import opened BbpTerms
  import opened Summation
  import opened Mantissa

  /** Output bit length nb, floating precision p (nb plus 32 guard bits) and
      number of terms n. */
  datatype Params = Params(nb: nat, p: nat, n: nat)

  /** The parameters for an output buffer of nBytes bytes. */
  function DeriveParameters(nBytes: nat): (r: Params)
    ensures r.nb % 8 == 0 && r.nb / 8 == nBytes
    ensures r.p - r.nb == 32
    ensures r.n == 2 * nBytes + 1 && 4 * (r.n - 1) == r.nb
  {
    var nb := 8 * nBytes;
    Params(nb, nb + 32, nb / 4 + 1)
  }

  /** The partial sum of at least one term has integer part 3, which takes 2 bits. */
  lemma SeriesIntegerPartBits(n: nat)
    requires n >= 1
    ensures Trunc(Series(n)) == 3
    ensures IntegerPartBits(Series(n)) == 2
  {
    SeriesIntegerPart(n);
    BitLenUnique(3, 2);
  }

  /** With no output byte the exponent nb - 2 is negative, the scale is 1 and
      the extracted integer is the integer part 3 itself. */
  lemma ZeroWidthMantissa(n: nat)
    requires n >= 1
    ensures MantissaInt(Series(n), 0) == 3
  {
    SeriesIntegerPartBits(n);
    assert ExpOrOne(0 - 2) == 1;
    assert ScaledTrunc(Series(n), 0, 2) == Trunc(1.0 * Series(n));
  }

  /** The exact-rational run for a buffer of nBytes bytes, with the results
      of the units of work arriving in the order `arrival`. The buffer is
      filled exactly when it has at least one byte; the sum's integer part is
      3, which needs 2 bits, so the extracted integer then has exactly
      8 * nBytes bits and the buffer holds it big-endian. */
  method RationalDigits(nBytes: nat, arrival: seq<nat>) returns (buf: array<byte>, ok: bool)
    requires multiset(arrival) == multiset(Indices(2 * nBytes + 1))
    ensures fresh(buf)
    ensures buf.Length == nBytes
    ensures ok <==> nBytes >= 1
    ensures ok ==> FromBigEndian(buf[..]) == MantissaInt(Series(2 * nBytes + 1), 8 * nBytes)
    ensures ok ==> BitLen(FromBigEndian(buf[..])) == 8 * nBytes
  {
    var params := DeriveParameters(nBytes);
    var piR := PiRational(params.n, arrival);
    var x := MantissaInt(piR, params.nb);
    buf := new byte[nBytes];
    ok := FillBytes(x, buf);
    SeriesIntegerPartBits(params.n);
    SeriesIntegerPart(params.n);
    MantissaNonNegative(piR, params.nb);
    Pow256IsPow2(nBytes);
    if nBytes >= 1 {
      MantissaBounds(piR, params.nb);
      DecodeEncode(x, nBytes);
      BitLenUnique(x, params.nb);
    } else {
      ZeroWidthMantissa(params.n);
    }
  }
}
