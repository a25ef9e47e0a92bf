# Ed25519, from limbs to signatures

This project models the Ed25519 implementation under `src/ed25519-donna` in its 64-bit form: field elements modulo p = 2^255 - 19 in five limbs of 51 bits, scalars modulo the group order m in five limbs of 56 bits, the twisted Edwards curve in extended coordinates, scalar multiplication, SHA-512, key generation, signing, verification, batch verification and the Curve25519 base point multiplication. Each layer is proved against a plain mathematical meaning, and the layers are composed up to whole signatures and whole batches.

## How it is put together

| layer | modules |
|---|---|
| numbers, bits, bytes, machine words | `Powers`, `Bits`, `Bytes`, `Words`, `Digits`, `NumberTheory` |
| field | `ModP`, `Field`, `FieldBytes`, `FieldChains`, `Tracked` |
| curve | `AbelianGroup`, `Combinations`, `Edwards`, `PointOps`, `Encoding`, `EdwardsLaw`, `Associativity`, `EdwardsGroup`, `BasePoint` |
| scalars | `Scalar`, `Barrett`, `ScalarOps`, `ScalarBytes`, `Recoding`, `BatchScalars` |
| multiples | `ScalarMult`, `BaseMult` |
| batches | `BatchHeap`, `BosCarter`, `MultiScalar`, `BatchVerify` |
| hash and signatures | `Sha512Spec`, `Sha512`, `Sha512Laws`, `Signature`, `Acceptance`, `KeyExchange` |

Machine arithmetic is explicit: 64-bit and 128-bit additions, products, shifts and casts are proved not to wrap or written with their wrap-around. Arrays, digit buffers, the heap and the hash context are updated in place where the source does so.

## The main results

- **The curve is a group.** If p is prime, d is not a square, the addition law is complete and closed on the curve, and it is associative (`DNonSquare`, `Complete`, `Closed`, `LawAssociative`). So the group that every other result takes as a parameter exists and is unique (`GroupExists`, `GroupUnique`). p, d, m and the base point are those of section 5.1 of RFC 8032 (`FieldPrime`, `CurveConstant`, `GroupOrder`, `BaseOnCurve`, `BaseEncoding`).
- **Field and scalar arithmetic are exact.** Products, squares and the two addition chains never wrap and are right modulo p; the byte form is the unique representative. Barrett reduction gives exactly x mod m for every x below 2^512, although the low columns of the quotient are dropped.
- **Recoding.** The sliding-window digits are odd and small and spaced apart, and make up the scalar exactly if its form fits into the array (`SlidingWindow`, `LostIsBeyond`); below 2^255 it always does (`TopClear`), and above it need not (`AllOnesLost`), but no caller passes a scalar from 2^255 on. A number has only one such form (`WindowedUnique`). The radix-16 digits drive the base point comb.
- **Scalar multiplication.** `[s1]P + [s2]B` and `[s]B` come out as stated, with t read only while it is fresh.
- **Decoding is complete.** A string is accepted exactly if its y belongs to a point of the curve; packing undoes unpacking up to the sign bit exactly under a stated condition.
- **Batch verification.** Every turn of the Bos-Carter loop conserves the sum of multiples, keeps the heap, keeps the truncated comparisons exact, and makes the total smaller. The loop covers all scalars if and only if at least two of the first ones are positive and they share no divisor of more than 128 bits; it leaves their greatest common divisor and the sum of their points times the quotients (`Reduce`). The heap repair is right exactly for odd sizes (`RestoresExactly`), which are the only ones the source uses; an even count would leave out one point after the extension (`EvenSum`). So the outcome of every batch is a function of its inputs (`OutcomeUnique`). The final multiplication adds twice the leading power of two to the scalar (`Final`), which changes the point but, for points killed by 8m, never the verdict (`Verdict`). Valid signatures pass (`HonestResult`); a batch also passes signatures whose equations hold but whose R or S single verification rejects (`BatchAcceptsMore`); and at most one value of each random number hides a signature whose equation fails (`BatchSound`, and for a whole call `CallSound`). For a whole call every index is settled once, and the two bits of the return value mean what they should (`SignOpenBatch`).
- **Hash.** However a message is cut into updates, the digest is that of the padded message of section 5.1.2 of FIPS 180-4, byte for byte (`State.Final`). The functions of the standard are given by what they do to each bit (`ChBit`, `MajBit`, `BigSigma0Bit` and the other sums), the schedule and the rounds by equations between their words (`ScheduleEquation`, `RoundEquation`), and the initial value by square roots (`InitialRoots`).
- **Signatures.** Signing computes the signature of section 5.1.6 of RFC 8032, opening accepts exactly by the equation, both stated from the digests of the strings that are hashed, and every signature made with the matching public key is accepted. Two messages get the same R exactly if their nonce digests agree modulo m (`SameCommitment`). Opening leaves S up to 2^253: the responses accepted with one R are exactly those below 2^253 with one residue modulo m (`Responses`). So an accepted response is the only one if and only if 2^253 - m <= S < m (`OnlyResponseExact`), and below m, where callers ask S to be, there is only one (`ResponseUnique`).

## What is taken for granted

- p is prime (`Prime(P)`, from which `NoZeroDivisors` and `Fermat` follow by `PrimeField`), and where the batch verdict needs it, m is prime (`Prime(M)`).
- The tables of multiples hold what they are meant to (`BaseTable`, `SecondTable`) and the base point has order m; of the tables only the base point and the first rows are checked (`BaseFull`, `SlidingFirst`, `FirstRow`). The 80 round constants of SHA-512 are a parameter.
- Results about a batch verdict ask for [8m]P or [m]P to be neutral where they need it; the number of points of the curve is not part of this model.
- The random numbers of batch verification are a parameter, so the results hold for all of them.

## Where the source and its comments differ

- Section 5.1.7 of RFC 8032 rejects S from m on; `ed25519_sign_open` looks at the top three bits only, and so does the model.
- The comment at `src/ed25519-donna/curve25519-donna-64bit.h:178` gives `square_times` as in^(2 count). The code computes in^(2^count), and so does the model.
- The second conditional subtraction at the end of Barrett reduction is never needed: the remainder is already below 2m (`RemainderBounds`).
- The comment at `src/ed25519-donna/ed25519-donna-batchverify.h:150` admits every count from 5 on, but with an even count the last entry of the extended heap is never looked at again (`UpdatedKeeps`, `EvenSum`). All calls in the source pass an odd count.
- `ge25519_multi_scalarmult_vartime_final` takes the leading bit twice, and its search for a set limb starts below the top limb; `Final` states both.

## Model

| member | source | states |
|---|---|---|
| `Field.Add` | src/ed25519-donna/curve25519-donna-64bit.h:27-33 | for limbs below 2^63 nothing wraps and the value is exactly the sum |
| `Field.AddReduce` | src/ed25519-donna/curve25519-donna-64bit.h:46-54 | the sum modulo p in nearly reduced limbs, for all limbs below 2^60 |
| `Field.Sub` | src/ed25519-donna/curve25519-donna-64bit.h:64-70 | adding 2p keeps every limb from underflowing and gives the difference modulo p |
| `Field.SubAfterBasic` | src/ed25519-donna/curve25519-donna-64bit.h:74-80 | the same with 4p, for operands that are themselves sums or differences |
| `Field.SubReduce` | src/ed25519-donna/curve25519-donna-64bit.h:83-91 | the difference modulo p in nearly reduced limbs |
| `Field.Neg` | src/ed25519-donna/curve25519-donna-64bit.h:95-103 | the negative modulo p in nearly reduced limbs |
| `Field.ColumnsVal` | src/ed25519-donna/curve25519-donna-64bit.h:114-155 | the folded schoolbook columns, with 19 for 2^255, add up to the product modulo p |
| `Field.MulColumns` | src/ed25519-donna/curve25519-donna-64bit.h:114-155 | for limbs below 2^54 no 64-bit or 128-bit intermediate wraps, and the columns are those of the product |
| `Field.Mul` | src/ed25519-donna/curve25519-donna-64bit.h:107-171 | product modulo p for all limbs below 2^54, result nearly reduced, no intermediate wraps |
| `Field.Square` | src/ed25519-donna/curve25519-donna-64bit.h:237-284 | the same columns as the product of the number with itself, with the doubled cross terms |
| `Field.SquareTimes` | src/ed25519-donna/curve25519-donna-64bit.h:180-234 | in^(2^count) modulo p by a loop over the doubled-term squaring, for every count of at least one |
| `FieldBytes.Expand` | src/ed25519-donna/curve25519-donna-64bit.h:288-319 | the limbs hold the low 255 bits of the 32 bytes |
| `FieldBytes.Contract` | src/ed25519-donna/curve25519-donna-64bit.h:325-373 | the 32 bytes are the unique representative below p of the value, for all limbs below 2^54 |
| `FieldChains.OnesTimes50` | src/ed25519-donna/curve25519-donna-helpers.h:13-31 | z^(2^5 - 1) becomes z^(2^250 - 1) through the addition chain |
| `FieldChains.Recip` | src/ed25519-donna/curve25519-donna-helpers.h:37-49 | exactly z^(p - 2) |
| `FieldChains.PowTwo252m3` | src/ed25519-donna/curve25519-donna-helpers.h:55-67 | exactly z^((p - 5) / 8) |
| `NumberTheory.FermatLittle` | src/ed25519-donna/curve25519-donna-helpers.h:37-49 | a^(p - 1) - 1 is a multiple of p for every prime p and every a from 1 to p - 1, so that z^(p - 2) is the reciprocal |
| `EdwardsLaw.PrimeField` | src/ed25519-donna/curve25519-donna-helpers.h:37-49 | if p is prime it has no zero divisors and every nonzero z satisfies z^(p - 1) = 1 |
| `EdwardsLaw.NoEighthRoot` | src/ed25519-donna/ed25519-donna-64bit-tables.h:16-18 | p is 5 modulo 8, so the square root of -1 in the table is not itself a square |
| `EdwardsLaw.DNonSquare` | src/ed25519-donna/ed25519-donna-64bit-tables.h:8-10 | the curve constant d is not a square modulo p |
| `EdwardsLaw.Complete` | src/ed25519-donna/ed25519-donna-impl-base.h:33-50 | the denominators of the addition law vanish for no two points of the curve, equal, opposite or neutral ones included |
| `EdwardsLaw.Closed` | src/ed25519-donna/ed25519-donna-impl-base.h:33-50 | the sum of two points of the curve is on the curve |
| `Associativity.SameRatio` | src/ed25519-donna/ed25519-donna-impl-base.h:33-50 | the x coordinates of (p + q) + r and p + (q + r) agree as fractions on the curve |
| `Associativity.LawAssociative` | src/ed25519-donna/ed25519-donna-impl-base.h:33-50 | the addition law is associative |
| `EdwardsGroup.GroupExists` | src/ed25519-donna/ed25519-donna-impl-base.h:33-67 | if p is prime the points of the curve with the addition law are an Abelian group, the one all other results are stated for |
| `EdwardsGroup.GroupUnique` | src/ed25519-donna/ed25519-donna-impl-base.h:33-67 | no other group satisfies what those results ask of it |
| `Edwards.CurveExactly` | src/ed25519-donna/ed25519-donna-impl-base.h:33-67 | a point is on the curve if and only if y^2 - x^2 = 1 + d x^2 y^2 modulo p and both coordinates are below p |
| `Edwards.SumExactly` | src/ed25519-donna/ed25519-donna-impl-base.h:33-67 | the sum of two points by section 5.1.4 of RFC 8032, with denominators that do not vanish |
| `BasePoint.FieldPrime` | src/ed25519-donna/curve25519-donna-64bit.h:46-54 | p is 2^255 - 19 |
| `BasePoint.CurveConstant` | src/ed25519-donna/ed25519-donna-64bit-tables.h:8-10 | d is the one of section 5.1 of RFC 8032: 121666 d = -121665 modulo p |
| `BasePoint.GroupOrder` | src/ed25519-donna/modm-donna-64bit.h:21-27 | m is 2^252 + 27742317777372353535851937790883648493 |
| `BasePoint.BaseOnCurve` | src/ed25519-donna/ed25519-donna-64bit-tables.h:1-6 | the base point of the table is on the curve, 5y = 4 modulo p and x is even |
| `BasePoint.BaseFull` | src/ed25519-donna/ed25519-donna-64bit-tables.h:1-6 | all four coordinates of the table entry are right, t included |
| `BasePoint.BaseEncoding` | src/ed25519-donna/ed25519-donna-64bit-tables.h:1-6 | the base point encodes to 0x58 followed by 31 bytes 0x66 |
| `BasePoint.SlidingFirst` | src/ed25519-donna/ed25519-donna-64bit-tables.h:20-21 | the first row of the sliding multiples is the base point in its y - x, x + y, 2dxy form |
| `BasePoint.FirstRow` | src/ed25519-donna/ed25519-donna-basepoint-table.h:2-3 | so is the first row of the packed multiples |
| `Edwards.CompletedToExtended` | src/ed25519-donna/ed25519-donna-impl-base.h:6-18 | completed coordinates of a point become extended ones of the same point, with t = xy/z when t is computed |
| `Edwards.AddCompleted` | src/ed25519-donna/ed25519-donna-impl-base.h:33-50 | the four products of the addition formula represent the sum of section 5.1.4 of RFC 8032 |
| `Edwards.DoubleCompleted` | src/ed25519-donna/ed25519-donna-impl-base.h:54-67 | the doubling formula represents the unified sum of a point of the curve with itself, without reading t |
| `Edwards.NegIsInverse` | src/ed25519-donna/ed25519-donna-impl-base.h:192-239 | the group inverse of (x, y) is (-x mod p, y) |
| `PointOps.P1p1ToPartial` | src/ed25519-donna/ed25519-donna-impl-base.h:6-10 | represents the same point; t is left stale |
| `PointOps.P1p1ToFull` | src/ed25519-donna/ed25519-donna-impl-base.h:13-18 | represents the same point with a fresh t, all limbs nearly reduced |
| `PointOps.FullToPniels` | src/ed25519-donna/ed25519-donna-impl-base.h:21-26 | the prepared form of the point; reads t, so needs it fresh |
| `PointOps.AddP1p1` | src/ed25519-donna/ed25519-donna-impl-base.h:33-50 | the group sum; every intermediate stays inside the bounds that sub and mul demand |
| `PointOps.DoubleP1p1` | src/ed25519-donna/ed25519-donna-impl-base.h:54-67 | the group double, for a point whose t may be stale |
| `PointOps.Nielsadd2P1p1` | src/ed25519-donna/ed25519-donna-impl-base.h:70-86 | the sum with an affine table entry, or the difference for sign bit 1 |
| `PointOps.PnielsaddP1p1` | src/ed25519-donna/ed25519-donna-impl-base.h:89-106 | the sum with a projective prepared point, or the difference for sign bit 1 |
| `PointOps.DoublePartial` | src/ed25519-donna/ed25519-donna-impl-base.h:109-113 | the double, with a stale t |
| `PointOps.Double` | src/ed25519-donna/ed25519-donna-impl-base.h:116-120 | the double, with a fresh t |
| `PointOps.AddPoints` | src/ed25519-donna/ed25519-donna-impl-base.h:123-127 | the sum of two points, with a fresh t |
| `PointOps.Nielsadd2` | src/ed25519-donna/ed25519-donna-impl-base.h:130-147 | the sum with an affine table entry, with a fresh t |
| `PointOps.Pnielsadd` | src/ed25519-donna/ed25519-donna-impl-base.h:150-172 | the sum of a point and a prepared point, again prepared |
| `Encoding.Pack` | src/ed25519-donna/ed25519-donna-impl-base.h:180-189 | the encoding of section 5.1.2 of RFC 8032 of the represented point, whatever z is |
| `Encoding.Verify` | src/ed25519-donna/ed25519-donna.h:67-72 | 1 exactly for equal strings |
| `Encoding.CandidateComplete` | src/ed25519-donna/ed25519-donna-impl-base.h:206-217 | if u/v has a root, the square of the candidate u v^3 (u v^7)^((p - 5)/8) is u/v or -u/v |
| `Encoding.SqrtRatio` | src/ed25519-donna/ed25519-donna-impl-base.h:206-230 | finds a root of num/den whenever there is one, and otherwise reports that none exists |
| `Encoding.UnpackNegative` | src/ed25519-donna/ed25519-donna-impl-base.h:192-239 | accepts exactly the strings whose y, the low 255 bits modulo p, belongs to a point of the curve, and then gives the point with that y and the sign opposite to the top bit, with a fresh t |
| `Encoding.NegativeExactly` | src/ed25519-donna/ed25519-donna-impl-base.h:192-239 | what the negative of an encoded point is: its y is the low 255 bits modulo p, and its x is 0 or has the sign opposite to the top bit |
| `Encoding.NegativeUnique` | src/ed25519-donna/ed25519-donna-impl-base.h:192-239 | a string determines the point at most one way |
| `Encoding.EncodeNegative` | src/ed25519-donna/ed25519-donna-impl-base.h:180-239 | unpacking what was packed gives the negative of the point, for every point |
| `Encoding.PackOfUnpack` | src/ed25519-donna/ed25519-donna-impl-base.h:180-239 | packing what was unpacked flips the top bit and nothing else if and only if the encoded y is below p and x is not 0, or is 0 with the top bit set |
| `Encoding.EncodeBack` | src/ed25519-donna/ed25519-donna-impl-base.h:180-239 | a string is the encoding of the negative of what it unpacks to if and only if its y is below p and it does not give 0 a sign |
| `Scalar.Reduce256` | src/ed25519-donna/modm-donna-64bit.h:43-63 | subtracts m exactly when the number is at least m, without a branch |
| `Barrett.QuotientBounds` | src/ed25519-donna/modm-donna-64bit.h:71-85 | dropping the low columns of mu q1 changes the quotient estimate by a bounded amount |
| `Barrett.Quotient` | src/ed25519-donna/modm-donna-64bit.h:71-85 | the computed quotient estimate is within that bound, and no 64-bit or 128-bit intermediate wraps |
| `Barrett.TimesM` | src/ed25519-donna/modm-donna-64bit.h:87-96 | m times the quotient modulo 2^264 |
| `Barrett.SubMod264` | src/ed25519-donna/modm-donna-64bit.h:98-103 | the borrow chain is the difference modulo 2^264 |
| `Barrett.RemainderBounds` | src/ed25519-donna/modm-donna-64bit.h:66-107 | for every x below 2^512 the remainder before correction is below 2m |
| `Barrett.BarrettReduce` | src/ed25519-donna/modm-donna-64bit.h:66-107 | exactly x mod m for every x below 2^512 |
| `ScalarOps.Add256` | src/ed25519-donna/modm-donna-64bit.h:111-121 | exactly the sum modulo m of reduced scalars |
| `ScalarOps.Mul256` | src/ed25519-donna/modm-donna-64bit.h:124-150 | exactly the product modulo m of any two numbers below 2^256 |
| `ScalarBytes.Expand256` | src/ed25519-donna/modm-donna-64bit.h:153-187 | fewer than 32 bytes are read as they are, 32 to 64 bytes exactly modulo m |
| `ScalarBytes.ExpandRaw256` | src/ed25519-donna/modm-donna-64bit.h:190-203 | the number the 32 bytes denote |
| `ScalarBytes.Contract256` | src/ed25519-donna/modm-donna-64bit.h:206-211 | the 32 bytes that denote the number |
| `Recoding.Expand` | src/ed25519-donna/modm-donna-64bit.h:219-226 | the digits in base 2 or 16 make up the scalar |
| `Recoding.SignDigits` | src/ed25519-donna/modm-donna-64bit.h:228-237 | the carry loop keeps the number and leaves 63 digits from -8 to 7 |
| `Recoding.Window4` | src/ed25519-donna/modm-donna-64bit.h:214-238 | digits from -8 to 7, a top digit of at most 8 for scalars below 2^255, adding up to the scalar |
| `Recoding.Ripple` | src/ed25519-donna/modm-donna-64bit.h:268-274 | adds one at a position by carrying in place; the carry is lost at the end of the array if and only if all digits from there on are one, and nothing else is lost |
| `Recoding.TopClear` | src/ed25519-donna/modm-donna-64bit.h:266-274 | for scalars below 2^255 the top digit is still zero whenever a window starts, so the carry cannot be lost |
| `Recoding.FoldWindow` | src/ed25519-donna/modm-donna-64bit.h:259-278 | one window: the number is kept unless a carry is lost at the end, the digit is odd and below 2^(w-1), and w - 1 zeros follow it |
| `Recoding.Slide` | src/ed25519-donna/modm-donna-64bit.h:258-279 | the loop over all positions leaves the windowed form: the digits make up the number if and only if its form has no further digit (Beyond is 0), and otherwise the number less that digit; in the lower half of the range there is none |
| `Recoding.BeyondDigits` | src/ed25519-donna/modm-donna-64bit.h:258-279 | the digits of a windowed form are the least residues that its number begins with, one after the other |
| `Recoding.WindowedUnique` | src/ed25519-donna/modm-donna-64bit.h:258-279 | a number has at most one windowed form of a given length |
| `Recoding.LostIsBeyond` | src/ed25519-donna/modm-donna-64bit.h:266-274 | a lost carry is the next digit of the form, which the array has no room for |
| `Recoding.SlidingWindow` | src/ed25519-donna/modm-donna-64bit.h:241-280 | for windows 2 to 7 and every scalar below 2^256 each digit is zero or odd and below 2^(w-1) with w - 1 zeros after it; the digits make up the scalar exactly if the form of the scalar fits into 256 digits, as it does below 2^255, and otherwise the scalar less 2^256 |
| `Recoding.AllOnesLost` | src/ed25519-donna/modm-donna-64bit.h:259-278 | the form of a number that is all ones has one digit too many, so that for 2^256 - 1 the carry is lost |
| `AbelianGroup.MixNext` | src/ed25519-donna/ed25519-donna-impl-base.h:277-290 | doubling [a]P + [b]B and adding the digits' multiples is one Horner step in both scalars |
| `ScalarMult.OddMultiples` | src/ed25519-donna/ed25519-donna-impl-base.h:263-266 | the table holds P, 3P, ..., 15P |
| `ScalarMult.SkipZeros` | src/ed25519-donna/ed25519-donna-impl-base.h:273-275 | the highest position with a digit in either window, or none |
| `ScalarMult.MixStep` | src/ed25519-donna/ed25519-donna-impl-base.h:277-290 | one position of both windows, indices in range, t read only when fresh |
| `ScalarMult.Interleave` | src/ed25519-donna/ed25519-donna-impl-base.h:273-291 | the loop from the highest digit down computes the combination the digits stand for |
| `ScalarMult.DoubleScalarmult` | src/ed25519-donna/ed25519-donna-impl-base.h:253-292 | [s1]P + [s2]B for every point and all scalars below 2^255 |
| `BaseMult.WindowbEqual` | src/ed25519-donna/ed25519-donna-impl-base.h:299-301 | for all 32-bit numbers: 1 for equal ones and for those that differ in the top bit and another one, 0 otherwise; below 2^31 exactly for equal ones |
| `BaseMult.AbsoluteByMask` | src/ed25519-donna/ed25519-donna-impl-base.h:306-308 | the magnitude of a signed char by 32-bit mask arithmetic |
| `BaseMult.MoveConditional` | src/ed25519-donna/curve25519-donna-64bit.h:379-395 | replaces the 96 bytes or leaves them, without a branch |
| `BaseMult.SwapConditional` | src/ed25519-donna/curve25519-donna-64bit.h:399-408 | exchanges two field elements or leaves them, without a branch |
| `BaseMult.ChooseRow` | src/ed25519-donna/ed25519-donna-impl-base.h:311-317 | keeps the row that belongs to the magnitude, or the neutral one for 0 |
| `BaseMult.ChooseNiels` | src/ed25519-donna/ed25519-donna-impl-base.h:304-328 | the entry for [b][256^pos]B for every digit from -8 to 8 |
| `BaseMult.StartPoint` | src/ed25519-donna/ed25519-donna-impl-base.h:342-347 | the first entry becomes a point with z = 2 whose stored 2xy serves as t |
| `BaseMult.Strands` | src/ed25519-donna/ed25519-donna-impl-base.h:335-363 | the digits at even positions plus 16 times those at odd positions make up the number |
| `BaseMult.Comb` | src/ed25519-donna/ed25519-donna-impl-base.h:342-362 | the odd digits, four doublings and the even digits compute the multiple the digits stand for |
| `BaseMult.ScalarmultBase` | src/ed25519-donna/ed25519-donna-impl-base.h:335-363 | [s]B with a fresh t for every scalar below 2^255 |
| `BatchScalars.LtBatch` | src/ed25519-donna/modm-donna-64bit.h:304-315 | for numbers without limbs above limbsize the truncated comparison is the order of the numbers |
| `BatchScalars.LteBatch` | src/ed25519-donna/modm-donna-64bit.h:319-330 | the same for less or equal |
| `BatchScalars.SubBatch` | src/ed25519-donna/modm-donna-64bit.h:288-299 | for b <= a the truncated subtraction is exact and stays within limbsize |
| `BatchScalars.IsZero` | src/ed25519-donna/modm-donna-64bit.h:334-340 | exactly zero |
| `BatchScalars.IsOne` | src/ed25519-donna/modm-donna-64bit.h:344-350 | exactly one |
| `BatchScalars.AtMost128` | src/ed25519-donna/modm-donna-64bit.h:354-361 | exactly the numbers below 2^128 |
| `BatchHeap.SiftUpStep` | src/ed25519-donna/ed25519-donna-batchverify.h:42-46 | an exchange on the way up moves the only violation to the parent |
| `BatchHeap.SiftUp` | src/ed25519-donna/ed25519-donna-batchverify.h:41-46 | both loops, with the strict comparison and with the lax one, leave the heap that the function Risen gives |
| `BatchHeap.RisenOrdered` | src/ed25519-donna/ed25519-donna-batchverify.h:42-46 | rising restores the order if only the place it starts from may exceed its parent |
| `BatchHeap.RisenPlace` | src/ed25519-donna/ed25519-donna-batchverify.h:42-46 | an entry rises to a place whose parent is not smaller or, for the lax comparison, larger |
| `BatchHeap.SiftDownStep` | src/ed25519-donna/ed25519-donna-batchverify.h:62-68 | an exchange with the larger child moves the hole down and keeps every other pair in order |
| `BatchHeap.LeafReached` | src/ed25519-donna/ed25519-donna-batchverify.h:62-71 | for an odd number of entries, or when the last entry is the least, nothing larger is left below the place where the root stops |
| `BatchHeap.SiftDown` | src/ed25519-donna/ed25519-donna-batchverify.h:57-68 | for every size from 3 on the loop leaves the heap and the place that the function Sunk gives, the larger child moving up each time |
| `BatchHeap.SunkOrdered` | src/ed25519-donna/ed25519-donna-batchverify.h:62-68 | sinking keeps all in order but around the place it ends at, which has no right child |
| `BatchHeap.UpdatedOrdered` | src/ed25519-donna/ed25519-donna-batchverify.h:52-77 | whatever the root became, sinking and rising restore the order if the number of entries is odd or the last entry is the least |
| `BatchHeap.UpdatedKeeps` | src/ed25519-donna/ed25519-donna-batchverify.h:52-77 | an update keeps the permutation, and of an even number of entries the last never moves |
| `BatchHeap.EvenSizeStops` | src/ed25519-donna/ed25519-donna-batchverify.h:62-76 | for every even number of entries from 4 on there is a heap whose order the update does not restore |
| `BatchHeap.RestoresExactly` | src/ed25519-donna/ed25519-donna-batchverify.h:52-77 | from three entries on the update restores the order of every heap if and only if the number of entries is odd |
| `BatchHeap.InsertNext` | src/ed25519-donna/ed25519-donna-batchverify.h:32-48 | the next index joins; heap order and permutation are kept |
| `BatchHeap.Extend` | src/ed25519-donna/ed25519-donna-batchverify.h:81-93 | all indices up to the new count join; heap order and permutation are kept |
| `BatchHeap.UpdatedRoot` | src/ed25519-donna/ed25519-donna-batchverify.h:52-77 | for every size from 3 on the heap becomes what sinking and rising make of it; the permutation is kept, and the order restored if the number of entries is odd or the last entry is the least |
| `BatchHeap.GetTop2` | src/ed25519-donna/ed25519-donna-batchverify.h:97-103 | distinct indices of the largest and the second largest scalar |
| `AbelianGroup.SumStep` | src/ed25519-donna/ed25519-donna-batchverify.h:182-183 | replacing (s1, P1), (s2, P2) by (s1 - s2, P1), (s2, P2 + P1) keeps the sum of multiples |
| `Combinations.ExpressedStep` | src/ed25519-donna/ed25519-donna-batchverify.h:182-183 | a step keeps the points integer combinations of the starting points, and the scalars times those combinations the starting scalars |
| `Combinations.ExpressedEnd` | src/ed25519-donna/ed25519-donna-batchverify.h:167-169 | when one scalar is left, its point is the combination of the starting points by the quotients of their scalars |
| `BosCarter.Step` | src/ed25519-donna/ed25519-donna-batchverify.h:182-184 | the arrays after one subtraction, one point addition and the heap repair |
| `BosCarter.Lower` | src/ed25519-donna/ed25519-donna-batchverify.h:171-173 | limbsize never underflows, still covers every member, and stays at least 2 while 127 bits are left |
| `BosCarter.StaysBig` | src/ed25519-donna/ed25519-donna-batchverify.h:175-182 | the largest scalar at most halves, so before the extension bit 127 is still covered |
| `BosCarter.NonNegativeStep` | src/ed25519-donna/ed25519-donna-batchverify.h:182 | every turn makes the total of the scalars smaller and no scalar larger |
| `BosCarter.CommonStep` | src/ed25519-donna/ed25519-donna-batchverify.h:182 | a turn keeps the common divisors of the scalars |
| `BosCarter.ExtensionReaches` | src/ed25519-donna/ed25519-donna-batchverify.h:175-180 | reaching the extension rules out a common divisor of more than 128 bits |
| `BosCarter.StopFails` | src/ed25519-donna/ed25519-donna-batchverify.h:167-169 | stopping before it exhibits one, or fewer than two scalars that are not zero |
| `BosCarter.Join` | src/ed25519-donna/ed25519-donna-batchverify.h:176-180 | after the extension the truncated comparisons cover the 128-bit scalars, and the second largest is still not zero; of an even number the entry that is last then counts as nothing from there on |
| `BosCarter.Turn` | src/ed25519-donna/ed25519-donna-batchverify.h:164-185 | one turn keeps the conserved sum, the combinations, the common divisors, the heap and the bounds on limbsize, and makes the total of the scalars smaller, for odd and even counts |
| `BosCarter.Reduce` | src/ed25519-donna/ed25519-donna-batchverify.h:152-185 | for every count from 5 on, with at most 128 bits in the scalars beyond the first ones, the loop ends; it covers all scalars if and only if the first ones reach the extension condition, and the first ones otherwise; it leaves the greatest common divisor of those it covered and the sum of the multiples of their points by the quotients, measured for an even count from the extension on without the entry that is last in the heap |
| `BosCarter.EvenSum` | src/ed25519-donna/ed25519-donna-batchverify.h:152-188 | after an extension to an even count the result and the multiple of the point left out add up to the whole sum, so the result is the whole sum if and only if that multiple is neutral |
| `MultiScalar.FindLimb` | src/ed25519-donna/ed25519-donna-batchverify.h:126-128 | the search for a set limb succeeds exactly if one of the limbs 0 to 3 is set |
| `MultiScalar.FindBit` | src/ed25519-donna/ed25519-donna-batchverify.h:130-133 | the leading bit of the limb |
| `MultiScalar.Exponentiate` | src/ed25519-donna/ed25519-donna-batchverify.h:136-147 | the loop makes the number plus twice its leading power of two |
| `MultiScalar.Final` | src/ed25519-donna/ed25519-donna-batchverify.h:107-148 | exactly which multiple comes out, and exactly for which scalars the search leaves the array |
| `MultiScalar.FinalExactly` | src/ed25519-donna/ed25519-donna-batchverify.h:110-148 | the multiple for a scalar above 1: its low 224 bits plus twice their leading power of two |
| `MultiScalar.NoSmallOrder` | src/ed25519-donna/ed25519-donna-batchverify.h:107-148 | with m prime and [m]P neutral, a vanishing multiple below m makes P neutral |
| `MultiScalar.Verdict` | src/ed25519-donna/ed25519-donna-batchverify.h:107-148 | for points killed by 8m the extra leading bit never changes whether the result is neutral; for points killed by m the result is the sum exactly if the scalar is 0 or 1 or the point neutral |
| `MultiScalar.MultiScalarmult` | src/ed25519-donna/ed25519-donna-batchverify.h:152-188 | for every count from 5 on, odd or even, with at most 128 bits in the scalars beyond the first ones: with s the greatest common divisor of the scalars that Reduce covers and the combination of their points by the quotients, when there is a result, and which multiple of the combination it is |
| `MultiScalar.RunVerdict` | src/ed25519-donna/ed25519-donna-batchverify.h:152-188 | for a run over all scalars and points killed by 8m the result is neutral if and only if the sum of all [scalar_i]point_i is; for points killed by m it is that sum exactly if s is 0 or 1 or the combination neutral |
| `MultiScalar.Missed` | src/ed25519-donna/ed25519-donna-batchverify.h:167-169 | the condition is needed: a run that stops early misses the other scalars |
| `BatchVerify.IsNeutral` | src/ed25519-donna/ed25519-donna-batchverify.h:193-202 | true exactly for the neutral element, whatever z is and however stale t is |
| `BatchVerify.FillScalars` | src/ed25519-donna/ed25519-donna-batchverify.h:219-238 | the scalars are s1 r1 + ... + sn rn, then r_i H(R_i, A_i, m_i), then r_i, modulo m |
| `BatchVerify.FillPoints` | src/ed25519-donna/ed25519-donna-batchverify.h:240-247 | stops exactly if some key or commitment does not decode; otherwise the base point and the negatives of the keys and commitments |
| `BatchVerify.AcceptedTerm` | src/ed25519-donna/ed25519.c:94-116 | a signature is accepted if and only if [S]B - [h]A - R = 0 over the decoded points, with h the digest of R, the key and the message modulo m, R is the one encoding of its point and the top bits of S are clear |
| `BatchVerify.AcceptedDecodes` | src/ed25519-donna/ed25519.c:100-115 | the key and the R of an accepted signature both decode |
| `BatchVerify.BatchSum` | src/ed25519-donna/ed25519-donna-batchverify.h:219-249 | over points killed by m a batch sums to the terms [s_i]B - [h_i]A_i - R_i weighted by the random numbers |
| `BatchVerify.BatchComplete` | src/ed25519-donna/ed25519-donna-batchverify.h:219-249 | a batch of accepted signatures over points of order m sums to the neutral element, whatever the random numbers |
| `BatchVerify.BatchSound` | src/ed25519-donna/ed25519-donna-batchverify.h:219-251 | if two values of one random number, all else equal, both let the batch sum to the neutral element, that signature satisfies its equation: at most one of the 2^128 values hides a signature that does not |
| `BatchVerify.PassedTwice` | src/ed25519-donna/ed25519-donna-batchverify.h:219-251 | the same for outcomes: if a batch passes with two values of one random number, the equation of that signature holds |
| `BatchVerify.CheckSum` | src/ed25519-donna/ed25519-donna-batchverify.h:249-251 | for every batch: out of range, passed or failed as the greatest common divisor of the covered scalars and the combination of their points decide, passed exactly if the multi-scalar result is neutral |
| `BatchVerify.JudgementExactly` | src/ed25519-donna/ed25519-donna-batchverify.h:249-251 | when a sum of multiples is out of range and when it passes, from the final multiple |
| `BatchVerify.RunBatch` | src/ed25519-donna/ed25519-donna-batchverify.h:217-251 | the outcome of one batch for every input: undecodable exactly if some string does not decode, and otherwise what CheckSum says of its scalars and points |
| `BatchVerify.OutcomeUnique` | src/ed25519-donna/ed25519-donna-batchverify.h:217-258 | the outcome of a batch is determined by its inputs |
| `BatchVerify.BatchVerdict` | src/ed25519-donna/ed25519-donna-batchverify.h:249-251 | a decodable batch that reaches the extension passes or fails; over points killed by 8m it passes if and only if its weighted sum is neutral |
| `BatchVerify.HonestBatch` | src/ed25519-donna/ed25519-donna-batchverify.h:217-258 | a batch of accepted signatures over points killed by m that reaches the extension passes |
| `BatchVerify.BatchAcceptsMore` | src/ed25519-donna/ed25519-donna-batchverify.h:217-251 | where batch and single verification differ: a batch whose terms all vanish passes, while each of its signatures is accepted alone if and only if the top bits of S are clear and R is the one encoding of its point |
| `BatchVerify.Individually` | src/ed25519-donna/ed25519-donna-batchverify.h:254-271 | valid[i] is the verdict on signature i, and bit 0 of ret records a zero |
| `BatchVerify.OneBatch` | src/ed25519-donna/ed25519-donna-batchverify.h:216-265 | a batch settles its own entries of valid and no other, and keeps what bits 0 and 1 of ret say |
| `BatchVerify.AllBatches` | src/ed25519-donna/ed25519-donna-batchverify.h:216-266 | after the loop at most three signatures are left, and all before them are settled |
| `BatchVerify.BatchInside` | src/ed25519-donna/ed25519-donna-batchverify.h:216-217 | which batches there are: 64 at a time while more than three signatures are left |
| `BatchVerify.SignOpenBatch` | src/ed25519-donna/ed25519-donna-batchverify.h:205-274 | every index is settled exactly once; for each batch its outcome is the one its inputs determine; valid[i] is 1 exactly if the batch of i passed or signature i is accepted on its own; bit 0 of ret says some valid[i] is 0, bit 1 that the combined check of some batch was not neutral; all this unless the final multiplication of a batch reads before its array, which no batch that reaches the extension does |
| `BatchVerify.ResultExactly` | src/ed25519-donna/ed25519-donna-batchverify.h:205-274 | valid and ret element by element from the outcomes of the batches and the single verifications |
| `BatchVerify.CallSound` | src/ed25519-donna/ed25519-donna-batchverify.h:205-274 | the same for whole calls: if two calls that differ in one random number both pass the batch it belongs to, that signature gets valid[i] = 1 and its equation holds, and single verification accepts it exactly if its R and S are canonical enough for it |
| `BatchVerify.OutcomesDefined` | src/ed25519-donna/ed25519-donna-batchverify.h:205-274 | if every batch reaches its extension the call never leaves an array |
| `BatchVerify.SameEntry` | src/ed25519-donna/ed25519-donna-batchverify.h:216-266 | entry i of batch j is entry 64j + i of the call: its message, key, signature and random number |
| `BatchVerify.OutcomesHonest` | src/ed25519-donna/ed25519-donna-batchverify.h:249-251 | every combined check passes on accepted signatures over points of order m whose batches reach the extension |
| `BatchVerify.HonestResult` | src/ed25519-donna/ed25519-donna-batchverify.h:205-274 | accepted signatures over points of order m whose batches reach the extension give ret = 0 and every entry 1 |
| `BatchVerify.ValidThoughRejected` | src/ed25519-donna/ed25519-donna-batchverify.h:205-274 | in such a batch a signature with a top bit of S set, or with another encoding of its R, gets valid[i] = 1 although it is rejected alone |
| `Sha512Spec.ChForm` | src/ed25519-donna/ed25519-hash.h:70 | the form with two exclusive ors is (x and y) xor (not x and z) |
| `Sha512Spec.MajForm` | src/ed25519-donna/ed25519-hash.h:71 | the form with and and or is (x and y) xor (x and z) xor (y and z) |
| `Sha512Laws.ChBit` | src/ed25519-donna/ed25519-hash.h:70 | bit by bit: the bit of y where x has a one and that of z where it has a zero |
| `Sha512Laws.MajBit` | src/ed25519-donna/ed25519-hash.h:71 | bit by bit: the value that at least two of the three have |
| `Sha512Spec.RotrValue` | src/ed25519-donna/ed25519-hash.h:41-43 | the two shifts joined by or are the rotation |
| `Sha512Laws.RotrBit` | src/ed25519-donna/ed25519-hash.h:41-43 | bit i of the rotation by n is bit (i + n) mod 64 |
| `Sha512Laws.BigSigma0Bit` | src/ed25519-donna/ed25519-hash.h:72 | bit i is the sum modulo 2 of bits i + 28, i + 34 and i + 39 around the word |
| `Sha512Laws.BigSigma1Bit` | src/ed25519-donna/ed25519-hash.h:73 | the same for 14, 18 and 41 |
| `Sha512Laws.SmallSigma0Bit` | src/ed25519-donna/ed25519-hash.h:74 | the same for 1 and 8 around the word and 7 without going around |
| `Sha512Laws.SmallSigma1Bit` | src/ed25519-donna/ed25519-hash.h:75 | the same for 19 and 61 around the word and 6 without going around |
| `Sha512.Rotr64` | src/ed25519-donna/ed25519-hash.h:41-43 | computes the rotation of the standard |
| `Sha512.BigSigma0Word` | src/ed25519-donna/ed25519-hash.h:72 | the first large sum of section 4.1.3 of FIPS 180-4 |
| `Sha512.BigSigma1Word` | src/ed25519-donna/ed25519-hash.h:73 | the second large sum |
| `Sha512.SmallSigma0Word` | src/ed25519-donna/ed25519-hash.h:74 | the first small sum |
| `Sha512.SmallSigma1Word` | src/ed25519-donna/ed25519-hash.h:75 | the second small sum |
| `Sha512.NextWord` | src/ed25519-donna/ed25519-hash.h:77 | the next word of the message schedule |
| `Sha512.Load64` | src/ed25519-donna/ed25519-hash.h:46-56 | the word whose bytes, from the most significant on, are the eight given |
| `Sha512.Bytes64` | src/ed25519-donna/ed25519-hash.h:59-68 | byte i is the word divided by 256^(7 - i), modulo 256 |
| `Sha512Spec.FromBEWord` | src/ed25519-donna/ed25519-hash.h:46-56 | eight bytes read as the sum of byte i times 256^(7 - i) |
| `Sha512Spec.FromBEOfBE` | src/ed25519-donna/ed25519-hash.h:46-68 | reading the bytes of a number gives it back modulo 256^n |
| `Sha512Spec.AbsorbAppend` | src/ed25519-donna/ed25519-hash.h:97-105 | hashing whole blocks in two goes is hashing them in one |
| `Sha512.FillSchedule` | src/ed25519-donna/ed25519-hash.h:98-99 | the array holds the message schedule of section 6.4.2 of FIPS 180-4 |
| `Sha512Laws.ScheduleEquation` | src/ed25519-donna/ed25519-hash.h:98-99 | the first 16 entries are the words of the block, and each later one is the sum modulo 2^64 of the two small sums and two entries, as entries of the array |
| `Sha512.RoundLoop` | src/ed25519-donna/ed25519-hash.h:100 | the moving registers are those of the 80 rounds |
| `Sha512Laws.RoundEquation` | src/ed25519-donna/ed25519-hash.h:78-88 | the eight registers after a round from those before it, with all sums modulo 2^64 |
| `Sha512.CompressBlock` | src/ed25519-donna/ed25519-hash.h:95-101 | the hash value after one block |
| `Sha512Laws.CompressWord` | src/ed25519-donna/ed25519-hash.h:95-101 | word i after a block is word i before it plus register i after 80 rounds, modulo 2^64 |
| `Sha512.CountStep` | src/ed25519-donna/ed25519-hash.h:102-103 | the two counter words hold 1024 times the blocks modulo 2^128; the carry happens exactly at the wrap |
| `Sha512.State.constructor` | src/ed25519-donna/ed25519-hash.h:109-121 | a context that holds the empty message |
| `Sha512Laws.InitialRoots` | src/ed25519-donna/ed25519-hash.h:110-117 | word i of the initial hash value is the first 64 bits of the fraction of the square root of the i-th prime |
| `Sha512.State.Blocks` | src/ed25519-donna/ed25519-hash.h:91-106 | whole blocks appended to what was hashed |
| `Sha512.State.Update` | src/ed25519-donna/ed25519-hash.h:124-151 | for every state and input the context holds the longer message: whole blocks hashed and counted, the tail in the buffer |
| `Sha512.PaddedMessage` | src/ed25519-donna/ed25519-hash.h:155-168 | the buffer contents that final hashes are the padding of section 5.1.2 of FIPS 180-4, in one block or two |
| `Sha512Laws.PaddingShape` | src/ed25519-donna/ed25519-hash.h:157-167 | 0x80, then the fewest zeros that leave 16 bytes in the block, then the length in bits in big-endian order |
| `Sha512.State.Final` | src/ed25519-donna/ed25519-hash.h:154-178 | the digest of the whole message, however it was cut up, with the length modulo 2^128; byte q is byte q mod 8 of word q / 8 of the hash value after the padded message |
| `Sha512.StoreWords` | src/ed25519-donna/ed25519-hash.h:170-177 | byte q of the output is byte q mod 8 of word q / 8 |
| `Sha512Laws.DigestByte` | src/ed25519-donna/ed25519-hash.h:170-177 | byte q of a digest from the hash value after the padded message |
| `Sha512.Hash` | src/ed25519-donna/ed25519-hash.h:181-186 | the digest of the input |
| `Signature.ClampRange` | src/ed25519-donna/ed25519.c:29-31 | a clamped scalar is a multiple of 8 between 2^254 and 2^255 |
| `Signature.ClampValue` | src/ed25519-donna/ed25519.c:29-31 | clamping keeps the bits from 3 to 253, clears those below and above and sets bit 254 |
| `Signature.Extsk` | src/ed25519-donna/ed25519.c:27-32 | the digest of the key with its first half clamped |
| `Signature.Hram` | src/ed25519-donna/ed25519.c:35-42 | H(R, A, m) |
| `Signature.PublicKey` | src/ed25519-donna/ed25519.c:45-55 | the encoding of [a]B for the clamped first half a of the digest of the secret key, although the code reduces a first |
| `Signature.PublicKeyExactly` | src/ed25519-donna/ed25519.c:45-55 | the public key as an encoded multiple of B, from the digest of the secret key alone |
| `Signature.Response` | src/ed25519-donna/ed25519.c:80-90 | the bytes of r + ha modulo m |
| `Signature.Sign` | src/ed25519-donna/ed25519.c:59-91 | exactly the signature of section 5.1.6 of RFC 8032, for every key, message and public key argument: R is [r]B for the digest r of the second half of the key digest and the message, and S is r + ha modulo m for the digest h of R, the public key and the message |
| `Signature.SignatureHalves` | src/ed25519-donna/ed25519.c:65-90 | both halves of a signature from digests alone |
| `Acceptance.SameCommitment` | src/ed25519-donna/ed25519.c:67-76 | two messages signed with one key get the same R if and only if their nonce digests agree modulo m, for m prime and a base point that is not neutral |
| `Signature.SignOpen` | src/ed25519-donna/ed25519.c:94-116 | 0 exactly if the top three bits of S are clear, the key decodes and [S]B - [h]A encodes to R, for h the digest of R, the key and the message modulo m; -1 otherwise |
| `Signature.AcceptsExactly` | src/ed25519-donna/ed25519.c:100-115 | acceptance from the digest of R, the key and the message |
| `Signature.AcceptsUnique` | src/ed25519-donna/ed25519.c:100-115 | acceptance is the equation for the one point that the key decodes to |
| `Signature.SignedIsAccepted` | src/ed25519-donna/ed25519.c:59-116 | every signature made with the matching public key is accepted |
| `Acceptance.NextResponse` | src/ed25519-donna/ed25519.c:100-115 | with an accepted (R, S) also (R, S + m) is accepted, as long as S + m is below 2^253 |
| `Acceptance.PreviousResponse` | src/ed25519-donna/ed25519.c:100-115 | with an accepted (R, S) whose S is m or more also (R, S - m) is accepted |
| `Acceptance.Responses` | src/ed25519-donna/ed25519.c:100-115 | which responses are accepted with one R: exactly those below 2^253 with the residue modulo m of one that is, for m prime and a base point that is not neutral |
| `Acceptance.OnlyResponseExact` | src/ed25519-donna/ed25519.c:100-115 | an accepted response is the only one for its R if and only if 2^253 - m <= S < m |
| `Acceptance.ResponseUnique` | src/casinocoin/protocol/impl/PublicKey.cpp:164-186 | below m, which the caller asks for, two accepted signatures of one message with the same R are equal, for m prime and a base point that is not neutral |
| `KeyExchange.MontgomeryU` | src/ed25519-donna/ed25519.c:143-148 | the quotient is the Montgomery coordinate (1 + y)/(1 - y), and 0 where that has no value |
| `KeyExchange.ProjectiveU` | src/ed25519-donna/ed25519.c:143-147 | the quotient of y + z by z - y does not depend on z |
| `KeyExchange.ScalarmultBasepoint` | src/ed25519-donna/ed25519.c:125-149 | the Montgomery coordinate below p of the clamped multiple of the base point, and 0 for the neutral element |

## Left out

- The 32-bit backend (`modm-donna-32bit.h`, `curve25519-donna-32bit.h`), the SSE2 and assembly variants: the same mathematics in other radices and lanes.
- Timing behaviour, the random number generators and the wrappers around other hash libraries.
- The primality of p and m, the order of the base point, and the contents of the tables of multiples beyond their first rows are hypotheses and not proved.
- Update in place of field elements, points and scalars: limb buffers are returned as values, so that calls in which an output buffer is also an input are modelled by their values only.
- BaseMult.MoveConditional: works byte by byte, where the source moves eight bytes at a time.
- BatchScalars.LtBatch: the fall-through switch is a loop from limbsize down to 0.
- BatchScalars.LteBatch: the fall-through switch is a loop from limbsize down to 0.
- BatchScalars.SubBatch: the fall-through switch is a loop from limb 0 up to limbsize.
- BatchHeap.SiftUp: one method with a flag stands for the two loops that differ only in the comparison.
- BosCarter.Reduce: asks for at most 128 bits in the scalars beyond the first ones, which the source takes for granted when it extends the heap.
- MultiScalar.MultiScalarmult: asks for the same, and says of an even count what is left out and not which entry of the heap that is.
- MultiScalar.Final: the read before the start of the array, which happens for scalars whose low 224 bits vanish, is reported as `ok = false` and not continued.
- BatchVerify.SignOpenBatch: says nothing of `valid` and the return value after such a read, whose effect the source leaves undefined.
- BatchVerify.BatchSound: counts the values of one random number and states no probability, since the random numbers are arbitrary.
- BatchVerify.HonestResult: asks for points killed by m, because the scalars are reduced modulo m before they multiply the points.
- `batch_point_buffer`, which the source writes for its tests.
- The rest of the repository (ledger, networking and build code around the signature library).
