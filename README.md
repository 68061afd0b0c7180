# Exact-arithmetic core of a BBP π calculator

This project models the exact part of a calculator that finds the leading
binary digits of π with the Bailey–Borwein–Plouffe series

    π = Σ_{i ≥ 0} (4/(8i+1) − 2/(8i+4) − 1/(8i+5) − 1/(8i+6)) / 16^i

and proves properties of that model. The calculator computes the terms
concurrently and adds them into one accumulator. It then takes the leading
`nb = 8·nBytes` bits of the sum as an integer and writes that integer
big-endian into a buffer of `nBytes` bytes.

The model covers the exact-rational variant of this pipeline. It also covers
the power-of-16 table of the incremental strategy: its entries are powers of
two, so even the floating-point program holds them exactly.

- `Powers` (powers.dfy): exact powers of 2, 16 and 256. Every power of 16 is
  a power of two, and a buffer of k bytes holds exactly the values below
  2^(8k).
- `Rationals` (rationals.dfy): small facts about exact rational division that
  the solver needs spelled out.
- `BbpTerms` (bbp_terms.dfy):
  - the term formula as functions over `real`;
  - the rational worker: its power loop and its in-place additions, quotients
    and subtractions, as methods;
  - the incremental table built by `GenWorkers`, as an array of
    `Worker(index, power)` records, plus the unit of work that skips the
    division at index 0.
- `Summation` (summation.dfy):
  - the drain loop that adds the results into the accumulator;
  - a proof that the order in which results arrive does not change the exact
    sum;
  - bounds on the partial sums: for n ≥ 1 the sum lies in [47/15, 51/15), so
    its integer part is 3.
- `Mantissa` (mantissa.dfy):
  - truncating quotient, bit length and `big.Int.Exp`'s behaviour on a
    non-positive exponent;
  - the extracted integer and its bounds;
  - big-endian encoding and decoding;
  - `FillBytes` as an in-place method on an `array<byte>`.
- `Pi` (pi.dfy): the parameter derivation and the whole rational run. The run
  fills the buffer exactly when `nBytes ≥ 1`. The buffer then decodes to the
  extracted integer, which has exactly `nb` bits.

Exact rationals (`big.Rat`) are Dafny `real`, which is exact. The concurrent
fan-out and fan-in is a sequential loop. The order in which the channel
delivers results is the parameter `arrival`: any permutation of the indices.

The model follows the Go code and the `math/big` behaviour it relies on:

- `big.Int.FillBytes` panics when the absolute value does not fit in the
  buffer; it does not truncate. `Mantissa.FillBytes` returns `ok = false` in
  exactly that case and promises nothing about the buffer then.
- `big.Int.Exp(2, e, nil)` returns 1 when `e ≤ 0`. The extraction function
  handles that case too (`ExpOrOne`) instead of requiring `nb ≥ L`. The bounds
  lemma is stated for `nb ≥ L`.
- `big.Int.Quo` truncates toward zero and `BitLen` measures the absolute
  value. The model uses `Trunc` and `Abs` accordingly. For the positive sums
  that actually occur, these coincide with floor and identity.

In `GenWorkers` (main.go:63-85) the test `i != 0` reads the loop variable
from inside the closure. Under Go versions before 1.22, every closure would
see the last index. The value is the same either way, because the power
captured for index 0 is 1: `IncrementalMatchesRecompute` covers both
outcomes.

## Model

| member | source | states |
|---|---|---|
| `Powers.Pow16IsPow2` | main.go:62-89 | 16^i = 2^(4i): each entry of the running power table is a power of two, so a binary float holds it exactly |
| `Powers.Pow256IsPow2` | main.go:135-136 | 256^nBytes = 2^(8·nBytes) = 2^nb: a buffer of nBytes bytes holds exactly the integers below 2^nb |
| `BbpTerms.Divisor` | main.go:106-109 | the divisor 16^i of a term is at least 1, so the final quotient by C1 is always defined |
| `BbpTerms.QuotientSumClosedForm` | main.go:111-126 | the chain of Add/Quo/Sub on T1..T4 and R equals the single fraction (120i²+151i+47)/(512i⁴+1024i³+712i²+194i+15), whose denominator is positive |
| `BbpTerms.QuotientSumBounds` | main.go:111-124 | the combined quotients lie strictly between 0 and 4 for every index; the four Quo steps are defined because `QuotientSum` is total on every natural index |
| `BbpTerms.PowerOf16` | main.go:106-109 | starting from 1 and multiplying by 16 exactly id times yields 16^id (loop invariant C1 = 16^i) |
| `BbpTerms.RatWorker` | main.go:103-129 | the rational worker for index id returns exactly the term T(id) = (4/(8id+1) − 2/(8id+4) − 1/(8id+5) − 1/(8id+6)) / 16^id |
| `BbpTerms.GenWorkers` | main.go:61-91 | the table has n entries; entry i captures index i and the power 16^i (running power starts at 1, is copied, then multiplied by 16 once per index); running entry i gives exactly T(i) |
| `BbpTerms.QuotientSum` | main.go:111-124 | T1 − T2 − T3 − T4 with T1 = 4/(8i+1), T2 = 2/(8i+4), T3 = 1/(8i+5) and T4 = 1/(8i+6): the value of R before the final Quo; closed form in QuotientSumClosedForm, bounds in QuotientSumBounds |
| `BbpTerms.RunWorker` | main.go:66-88 | the exact counterpart of one closure: QuotientSum of the captured index, divided by the captured power only when the index is not 0 (main.go:83-85); equal to Term in IncrementalMatchesRecompute |
| `BbpTerms.IncrementalMatchesRecompute` | main.go:81-85 | the incremental unit of work with power 16^i gives the recompute term T(i), including at index 0 where the division is skipped |
| `Summation.Sum` | main.go:210-212 | the left fold of `piR.Add` from 0 over the received results in arrival order; order independence in SumPermutation; the drain loop is Accumulate |
| `Summation.Accumulate` | main.go:204-212 | the accumulator starting at 0 and adding each received result ends at the sum of the results in arrival order |
| `Summation.SumPermutation` | main.go:210-212 | two arrival orders of the same results (equal multisets) give the same exact sum |
| `Summation.TermsPermuted` | main.go:206-208 | reordering the indices of the units of work only reorders their results (the multiset of terms is unchanged) |
| `Summation.ArrivalOrderIrrelevant` | main.go:210-212 | whatever order the n terms arrive in, the accumulator equals T(0) + … + T(n−1) |
| `Summation.PiRational` | main.go:201-212 | one rational worker per index, results delivered in any permutation `arrival` of 0..n−1, drained into the accumulator: the result is the exact partial sum of n terms |
| `Summation.FirstTerm` | main.go:111-126 | the term of index 0 is 47/15 |
| `Summation.TermBounds` | main.go:125-126 | every term is positive and below 4/16^i |
| `Summation.SeriesLower` | main.go:204-212 | for n ≥ 1 the partial sum is at least 47/15 |
| `Summation.SeriesUpper` | main.go:204-212 | for n ≥ 1 the partial sum is at most 51/15 − (4/15)/16^(n−1) |
| `Summation.SeriesIntegerPart` | main.go:218 | for n ≥ 1 the partial sum lies strictly between 3 and 4, so the integer part is 3 |
| `Mantissa.TruncTowardZero` | main.go:218 | the integer quotient Num/Denom is the integer next to the rational on the side of zero |
| `Mantissa.Trunc` | main.go:218-221 | `big.Int.Quo(Num, Denom)` of a rational: the floor for a non-negative value and minus the floor of the negation otherwise, i.e. rounding toward zero; characterised by TruncTowardZero |
| `Mantissa.BitLen` | main.go:218 | L = BitLen(x) is 0 for x = 0, satisfies x < 2^L, and 2^(L−1) ≤ x when x ≥ 1 |
| `Mantissa.BitLenUnique` | main.go:223 | the bit length is the unique r with 2^(r−1) ≤ x < 2^r |
| `Mantissa.IntegerPartBounds` | main.go:218 | the magnitude of the sum is below 2^L, and at least 2^(L−1) when its integer part is nonzero |
| `Mantissa.IntegerPartBits` | main.go:218 | `nbPi`: the bit length of the absolute value of the truncated piR; bounds in IntegerPartBounds, value 2 for the series in SeriesIntegerPartBits |
| `Mantissa.ExpOrOne` | main.go:219 | `big.Int.Exp(2, e, nil)`: 2^e for e > 0 and 1 for e ≤ 0; used by ScaledTruncByDoubling and ZeroWidthMantissa |
| `Mantissa.ScaledTrunc` | main.go:219-221 | Trunc(ExpOrOne(nb − l)·piR) with the exponent's l as a parameter; for nb ≥ l equal to the truncation of piR doubled nb − l times (ScaledTruncByDoubling) |
| `Mantissa.MantissaInt` | main.go:218-221 | `xR` = Trunc(2^(nb−L)·piR) with L = IntegerPartBits(piR), and a factor of 1 when nb − L ≤ 0; bounds in MantissaBounds, sign in MantissaNonNegative |
| `Mantissa.ScaledIsDoubled` | main.go:219-220 | multiplying by 2^k equals doubling k times |
| `Mantissa.DoubledBounds` | main.go:219-220 | doubling k times moves a value from [2^(l−1), 2^l) into [2^(l−1+k), 2^(l+k)) |
| `Mantissa.ScaledTruncByDoubling` | main.go:219-221 | with nb ≥ l, the scaled and truncated value is the truncation of the sum doubled nb − l times |
| `Mantissa.MantissaNonNegative` | main.go:219-221 | a non-negative sum gives a non-negative extracted integer |
| `Mantissa.MantissaBounds` | main.go:218-221 | when nb ≥ L the extracted integer xR satisfies abs(xR) < 2^nb, and 2^(nb−1) ≤ abs(xR) when the integer part is nonzero: xR has exactly nb bits |
| `Mantissa.ToBigEndian` | main.go:195 | the encoding has exactly the buffer's length |
| `Mantissa.FromBigEndian` | main.go:225 | the value of a byte sequence is below 256^length |
| `Mantissa.DecodeEncode` | main.go:225 | decoding the big-endian encoding of a value below 256^len gives the value back |
| `Mantissa.EncodeDecode` | main.go:225 | encoding the value of a byte sequence at its own length gives the sequence back |
| `Mantissa.ZeroPadding` | main.go:225 | a value below 256^k occupies only the last k bytes; all higher-order bytes are zero |
| `Mantissa.ZeroValueEncoding` | main.go:225 | the zero value fills the buffer with zeros |
| `Mantissa.DropAllBytes` | main.go:225 | after dropping len low bytes nothing remains exactly when the value fits in len bytes (the overflow condition of FillBytes) |
| `Mantissa.ToBigEndianPrepend` | main.go:225 | writing one more byte in front extends the encoding by the next byte up |
| `Mantissa.FillBytes` | main.go:225 | FillBytes succeeds exactly when abs(x) < 256^len(buf), and then the buffer is the zero-padded big-endian encoding of abs(x) |
| `Pi.DeriveParameters` | main.go:135-139 | nb = 8·nBytes is a multiple of 8 with nb/8 = nBytes; p carries 32 guard bits over nb; n = nb/4 + 1 = 2·nBytes + 1, one term per hex digit plus one |
| `Pi.SeriesIntegerPartBits` | main.go:218 | for at least one term, the truncated integer part of the sum is 3 and its bit length L is 2 |
| `Pi.ZeroWidthMantissa` | main.go:219-221 | with nb = 0 the exponent nb − L is negative, `Exp` gives 1, and the extracted integer is 3 |
| `Pi.RationalDigits` | main.go:199-226 | the whole rational run for any arrival order: buffer of nBytes bytes; filled exactly when nBytes ≥ 1; then it decodes to the extracted integer of the exact sum of 2·nBytes+1 terms, and that integer has exactly 8·nBytes bits |

## Left out

- `GenWorker` (main.go:14-50) and every `big.Float` operation are left out. This covers the float quotients and subtractions inside the `GenWorkers` closures (main.go:67-82) and the float extraction through `SetMantExp`, `MantExp` and `Int` (main.go:160-161, 189-190). They round at precision p, and floating-point rounding is outside the model. `RunWorker` gives the exact counterpart of a closure. Only the power table and the `i != 0` branch are modelled as the program runs them.
- The precision constants B1..B16 (main.go:15-21, 53-59, 95-101) are implicit: exact constants need no precision.
- Goroutines and channels (main.go:143-154, 172-183, 201-212) are not modelled. The fan-out is a sequential loop. Arrival order is the `arrival` parameter, assumed to be a permutation of the indices, as a buffered channel of size n with n senders guarantees.
- `nd` (main.go:140) is left out, because it uses `math.Log2` on `float64`.
- Timing, printing and rendering (`time.Now`, `time.Since`, `fmt.Printf`, `FloatString`, the hex dump) are left out as I/O.
- `runtime.GOMAXPROCS` (main.go:133) is left out as platform configuration.
- Convergence of the sum to π and a byte-for-byte match against a reference constant are not stated: π is not a Dafny value, and the program checks neither.
- The unused precision parameter `p` of `GenWorkerR` is not modelled. It plays no part in exact arithmetic.
- `BbpTerms.RatWorker`, `BbpTerms.PowerOf16`: indices are `nat`. The workers are only ever called with 0..n−1, so negative `id` values are not modelled.
- `Mantissa.FillBytes`: on overflow the library panics partway through writing. The model returns `ok = false` and says nothing about the buffer contents in that case.
- `Pi.RationalDigits`: the rational run writes into the buffer made at main.go:195, while the model allocates a fresh buffer of the same `nBytes` length. The old contents cannot show through, because FillBytes first clears the whole buffer.
