# Crypto++ core algorithms, verified

The Android application in this repository carries Crypto++ 5.6.3 under `app/src/main/jni/cryptopp`. This project models
the hardest parts of that library in Dafny and proves what they are for:

- **Fast multiples in groups.** Sliding windows with bucket sums, the two-base window table, the heap-driven cascade,
  fixed-base tables, projective doubling on elliptic curves and batch inversion all compute plain scalar multiples. A
  group is any abelian group, given by its operations and laws (`Groups`); a field is any field of characteristic other
  than two whose inversion sends zero to zero (`Fields`). That the formulas of the code add points of a curve by chord and
  tangent, and every group law of the points but associativity, is proved from the laws of the field (`CurveLaws`).
- **Streams.** The buffered-input filter, the padding filter, the base-2^w encoder, decoder and grouper, CMAC and CCM give
  results that depend on the concatenated input alone, not on how the calls cut it up or when the output was blocked.
- **ASN.1.** Lengths, unsigned integers and object identifiers decode to what was encoded; nested decoders stay within
  each other; the re-encoder keeps the tree of an element.
- **Arithmetic with bounds.** ESIGN's randomized inverse inverts, with the exact condition on its draw; Adler-32 with delayed reduction is Adler-32.

Code that updates things in place is modelled by classes, arrays and loops and proved against specification functions;
what is promised about those functions is proved as lemmas. Class fields keep the names of the members they model without
the `m_` prefix. `requires` clauses of class methods are the invariant of the object and the assertions of the source.

`dafny verify dfyconfig.toml` checks the whole project.

## Where the code differs from what one would expect

- `MulU` multiplies by u modulo u^256 + u^10 + u^5 + u + 1 for 32-byte blocks. That polynomial has the factor
  u^2 + u + 1, so its residues are not GF(2^256); the code agrees with the usual u^256 + u^10 + u^5 + u^2 + 1 exactly when
  the top bit is clear (`Cmac.Modulus256Factors`, `Cmac.Field256Iff`).
- `QuotientRing::MultiplicativeInverse` compares its remainder with zero modulo m, so for an argument at or above the
  modulus it returns zero, invertible or not (`QuotientRings.MultiplicativeInverse`, `QuotientRings.UnreducedFails`).
- ESIGN draws r from 0 to pq inclusive and does not look at gcd(r, p). A draw divisible by p leaves no correction, and the
  signature is then the draw itself (`Esign.CalculateRandomizedInverse`, `Esign.UsableIff`, `Esign.ZeroDrawFails`).
- `DERReencode` is documented as re-encoding to DER, but it copies the content of a definite element as it is. The output
  is definite throughout exactly when the input hides no indefinite element in a definite one (`AsnElements.DefiniteIff`,
  `AsnElements.HiddenStays`).
- An object identifier comes back exactly when its second arc is below 40 and its first two fit their octet
  (`AsnOid.RoundTripIff`); a boolean comes back exactly when it is 0 or 255 (`AsnUnsigned.BooleanIff`).
- `TruncatedFinal` of CCM makes tags of up to 16 bytes whatever the digest size is, but `TruncatedVerify` refuses a tag
  longer than the digest. What was sealed is accepted again exactly when its tag is not longer than the digest
  (`Ccm.Exchange`, `Ccm.LongTagRefused`).
- Zero padding cannot be told from the message, so decryption returns the padded message; it is the message exactly when
  nothing was padded (`StreamTransformation.RoundTrip`).
- CCM's lengths must be announced before any header or message data. The `specified` state of `Ccm.CCM` is the run in
  which they were.

## Model

| member | source | states |
|---|---|---|
| WindowSliders.WindowSlider.constructor | app/src/main/jni/cryptopp/algebra.cpp:206-218 | a slider stands before the first window of its exponent, with the given or the default window size |
| WindowSliders.WindowSlider.FindNextWindow | app/src/main/jni/cryptopp/algebra.cpp:220-247 | every window is odd and below 2^windowSize; windows taken so far plus the signed current window at windowBegin plus the rest at its place are the exponent; the rest strictly shrinks even when a negated window adds 2^w; the slider finishes exactly when nothing is left |
| WindowSliders.FindSetBit | app/src/main/jni/cryptopp/algebra.cpp:222-233 | the scan stops at the first set bit at or above its start, or reports that there is none |
| WindowSliders.NextWindow | app/src/main/jni/cryptopp/algebra.cpp:235-246 | splitting off the next window, negated or not, keeps the account of the exponent |
| WindowSliders.MoveOn | app/src/main/jni/cryptopp/algebra.cpp:275-297 | while a slider is unfinished its window begins within twice the sum of the exponents, so the doubling loop ends |
| SimultaneousMultiplication.WeightedByStacks | app/src/main/jni/cryptopp/algebra.cpp:303-312 | the suffix sums added up are the sum of (2j + 1) times bucket j |
| SimultaneousMultiplication.SumBuckets | app/src/main/jni/cryptopp/algebra.cpp:301-312 | the pass from the last bucket down returns the sum of (2j + 1) times bucket j |
| SimultaneousMultiplication.TakeWindow | app/src/main/jni/cryptopp/algebra.cpp:280-288 | putting the current doubling, or its inverse, into bucket window/2 keeps the buckets worth the windows taken times the base |
| SimultaneousMultiplication.OneRound | app/src/main/jni/cryptopp/algebra.cpp:277-290 | one bit position: every window that begins there is taken, and the flag says whether any exponent is unfinished |
| SimultaneousMultiplication.SimultaneousMultiply | app/src/main/jni/cryptopp/algebra.cpp:255-314 | for any list of non-negative exponents result i is exponent i times the base, with and without fast inversion |
| SimultaneousMultiplication.ScalarMultiply | app/src/main/jni/cryptopp/algebra.cpp:90-95 | the result is the exponent times the base |
| CascadeScalarMultiplication.Fill | app/src/main/jni/cryptopp/algebra.cpp:105-129 | writing i*x + j*y into slot (j << w) + i leaves every other filled slot as it was |
| CascadeScalarMultiplication.FillTable | app/src/main/jni/cryptopp/algebra.cpp:103-129 | every slot with an odd coordinate holds its combination i*x + j*y, whatever the table held before |
| CascadeScalarMultiplication.SplitSquares | app/src/main/jni/cryptopp/algebra.cpp:142-151 | common factors of two move from before the lookup to after it, and the unsigned count of squarings before it never underflows |
| CascadeScalarMultiplication.ApplyWindow | app/src/main/jni/cryptopp/algebra.cpp:140-167 | one window turns the combination of the bits above it into that of the bits down to it, reading only filled slots and never slot 0 |
| CascadeScalarMultiplication.ScanBits | app/src/main/jni/cryptopp/algebra.cpp:131-169 | from the top bit down every window is folded into the result, and the whole scan gives e1*x + e2*y |
| CascadeScalarMultiplication.CascadeScalarMultiply | app/src/main/jni/cryptopp/algebra.cpp:97-170 | the result is e1*x + e2*y for all non-negative e1 and e2 |
| Heaps.MakeHeap | app/src/main/jni/cryptopp/algebra.cpp:184 | a heap of the same terms |
| Heaps.PushHeap | app/src/main/jni/cryptopp/algebra.cpp:198 | the last term joins the heap, and the terms are the same |
| Heaps.PopHeap | app/src/main/jni/cryptopp/algebra.cpp:185 | a largest term moves to the end, the others stay a heap, and the terms are the same |
| Heaps.RootIsMax | app/src/main/jni/cryptopp/algebra.cpp:187-189 | no exponent in a heap exceeds the one at its root |
| GeneralCascade.DividedKeeps | app/src/main/jni/cryptopp/algebra.cpp:190-196 | a division step keeps the sum of exponent times base and lowers the total of the exponents |
| GeneralCascade.DivideLargest | app/src/main/jni/cryptopp/algebra.cpp:190-196 | the step in place: the last exponent becomes the remainder and the quotient times its base goes to the first base |
| GeneralCascade.TotalPermutes | app/src/main/jni/cryptopp/algebra.cpp:198-199 | reordering the heap keeps the total of the exponents |
| Groups.CombinationPermutes | app/src/main/jni/cryptopp/algebra.cpp:184-199 | reordering the terms keeps the sum of exponent times base |
| GeneralCascade.LastOnly | app/src/main/jni/cryptopp/algebra.cpp:187-202 | when the root is zero the sum is the last exponent times the last base |
| GeneralCascade.HeapCascade | app/src/main/jni/cryptopp/algebra.cpp:178-203 | the heap order and the sum are kept at every step, the loop ends, and the result is the sum of exponent times base |
| GeneralCascade.GeneralCascadeMultiplication | app/src/main/jni/cryptopp/algebra.cpp:172-204 | for any non-empty list the result is the sum of exponent times base |
| FixedBasePrecomputation.ChainPowers | app/src/main/jni/cryptopp/eprecomp.cpp:40-41 | table entry i is 2^(i * windowSize) times entry 0 |
| FixedBasePrecomputation.FixedBase.SetBase | app/src/main/jni/cryptopp/eprecomp.cpp:14-26 | entry 0 is the converted base; a new base drops the table and the same base keeps it |
| FixedBasePrecomputation.FixedBase.Precompute | app/src/main/jni/cryptopp/eprecomp.cpp:28-42 | the table has `storage` entries, each 2^windowSize times the one before, with the window size computed in 32-bit arithmetic |
| FixedBasePrecomputation.DigitStep | app/src/main/jni/cryptopp/eprecomp.cpp:79-87 | a digit r, or the negated digit 2^w - r with a carry, together with the rest of the exponent over the next entry, is worth the exponent over this entry |
| FixedBasePrecomputation.FixedBase.NextDigit | app/src/main/jni/cryptopp/eprecomp.cpp:77-87 | the same of the code, with digits below 2^w, or at most 2^(w - 1) where they can be negative |
| FixedBasePrecomputation.FixedBase.PrepareCascade | app/src/main/jni/cryptopp/eprecomp.cpp:69-90 | the terms appended sum to exponent times base, for every non-negative exponent, and all but the last have small exponents |
| FixedBasePrecomputation.FixedBase.Exponentiate | app/src/main/jni/cryptopp/eprecomp.cpp:92-98 | the converted result is exponent times the base, also for exponents longer than the table was made for |
| FixedBasePrecomputation.FixedBase.CascadeExponentiate | app/src/main/jni/cryptopp/eprecomp.cpp:100-110 | the converted result is the sum of both exponents times their bases |
| FixedBasePrecomputation.ConvertedMultiple | app/src/main/jni/cryptopp/eprecomp.h:22-24 | with conversions that carry one group to the other the result is the multiple in the caller's group |
| ParallelInversion.InverseOfPair | app/src/main/jni/cryptopp/ecp.cpp:277-282 | from the inverse of a product each factor's inverse is the other factor times it |
| ParallelInversion.Products | app/src/main/jni/cryptopp/ecp.cpp:259-266 | the products of neighbours, with an unpaired last element taken over |
| ParallelInversion.ParallelInvert | app/src/main/jni/cryptopp/ecp.cpp:252-287 | every element is replaced by its own inverse, for odd lengths and lists with zeros too |
| Curves.DoubledIsMultiple | app/src/main/jni/cryptopp/ecp.cpp:237-250 | n affine doublings are 2^n times the point |
| Curves.StepDoubles | app/src/main/jni/cryptopp/ecp.cpp:319-335 | one projective doubling step stands for one affine doubling, with z = 0 exactly for the identity |
| Curves.CarriesA | app/src/main/jni/cryptopp/ecp.cpp:325-333 | a*z^4 times (2y)^4 is a times the new z to the fourth |
| Curves.ProjectiveDoubling.constructor | app/src/main/jni/cryptopp/ecp.cpp:301-317 | the projective point stands for the affine one and aZ4 * sixteenY4 = a*z^4 |
| Curves.ProjectiveDoubling.Double | app/src/main/jni/cryptopp/ecp.cpp:319-335 | after any number of steps (x/z^2, y/z^3) is the same number of affine doublings and aZ4 * sixteenY4 = a*z^4 |
| Curves.AffineAgain | app/src/main/jni/cryptopp/ecp.cpp:426-435 | with z replaced by its inverse the affine coordinates are recovered, and the identity is recognised by z = 0 |
| CurveLaws.OnCurveIff | app/src/main/jni/cryptopp/ecp.cpp:179-187 | the test of a point is the equation y^2 = x^3 + ax + b |
| CurveLaws.LineMeets | app/src/main/jni/cryptopp/ecp.cpp:220-250 | the cubic minus the square of a line through two points of the curve, or of the tangent at one, is (u - x1)(u - x2)(u - x3) with the x3 of the code |
| CurveLaws.AddIsThirdPoint | app/src/main/jni/cryptopp/ecp.cpp:220-250 | the sum of two points of the curve is the identity exactly for opposite points, and otherwise the mirrored third intersection of the chord or tangent through them, which is on the curve |
| CurveLaws.AddCommutes | app/src/main/jni/cryptopp/ecp.cpp:220-235 | addition of points of the curve commutes |
| CurveLaws.Opposite | app/src/main/jni/cryptopp/ecp.cpp:207-225 | a point and its inverse add to the identity, and the identity is neutral |
| CurveLaws.AbelianIff | app/src/main/jni/cryptopp/ecp.cpp:202-250 | over a field the points of a curve are an abelian group exactly when their addition is associative |
| SmallCurve.SmallIsLawful | app/src/main/jni/cryptopp/ecp.cpp:202-250 | the points of y^2 = x^3 + x over the field of three elements are an abelian group |
| CurveRepresentations.AddMaps | app/src/main/jni/cryptopp/ecp.cpp:366-373 | an isomorphism of fields carries curve addition to curve addition |
| CurveRepresentations.GroupMaps | app/src/main/jni/cryptopp/ecp.cpp:366-373 | it carries the points of the curve with their group law to those of the converted curve |
| EcpMultiplication.CollectRound | app/src/main/jni/cryptopp/ecp.cpp:397-416 | one bit position: the current doubling is kept once and each window beginning there is recorded with it and its sign |
| EcpMultiplication.Collect | app/src/main/jni/cryptopp/ecp.cpp:376-423 | the recorded windows at their doublings spell every exponent, each window is between 1 and 31, and an exponent has no record exactly when it is zero |
| EcpMultiplication.AffineBases | app/src/main/jni/cryptopp/ecp.cpp:425-436 | after one batch inversion every kept doubling is the affine doubling of the point |
| EcpMultiplication.CascadeSum | app/src/main/jni/cryptopp/ecp.cpp:438-458 | the cascade of an exponent sums to that exponent times the point |
| EcpMultiplication.CollectAndSum | app/src/main/jni/cryptopp/ecp.cpp:376-460 | in its own representation every result is exponent times the point; the cascade goes back to `ScalarMultiply` with windows below 32 only, so the recursion ends |
| EcpMultiplication.SimultaneousMultiply | app/src/main/jni/cryptopp/ecp.cpp:364-460 | for every point and list of non-zero exponents each result is exponent times the point, with or without conversion of the field |
| EcpMultiplication.ScalarMultiply | app/src/main/jni/cryptopp/ecp.cpp:354-362 | the result is k times the point for every k, zero included, through the recursion from the window sums back to here |
| EcpMultiplication.ShortScalar | app/src/main/jni/cryptopp/ecp.cpp:357 | the short path is taken exactly for scalars up to 31, the largest window |
| EcpMultiplication.DivideLargest | app/src/main/jni/cryptopp/algebra.cpp:190-196 | the division step of the cascade with the multiplication of the curve: a quotient never exceeds the bound on the exponents |
| EcpMultiplication.HeapCascade | app/src/main/jni/cryptopp/algebra.cpp:178-203 | the cascade over points of the curve, multiplying through `ScalarMultiply`, gives the sum of exponent times point |
| EcpMultiplication.GeneralCascadeMultiplication | app/src/main/jni/cryptopp/algebra.cpp:172-204 | the same for one, two or more points |
| EcpMultiplication.CascadeScalarMultiply | app/src/main/jni/cryptopp/ecp.cpp:462-472 | k1 times one point plus k2 times another, with or without conversion of the field |
| QuotientRings.MultiplicativeInverse | app/src/main/jni/cryptopp/algebra.cpp:70-88 | below the modulus: the inverse of a coprime argument and zero otherwise; at or above the modulus: always zero; for coprime arguments an inverse exactly when the argument is below the modulus or the modulus is 1 |
| QuotientRings.ZeroInverse | app/src/main/jni/cryptopp/algebra.cpp:87 | zero is an inverse exactly modulo 1 |
| QuotientRings.UnreducedFails | app/src/main/jni/cryptopp/algebra.cpp:77-87 | 8 is invertible modulo 7 but the result for it is zero, which is not its inverse |
| Esign.ApplyFunction | app/src/main/jni/cryptopp/esign.cpp:53-57 | the image has at most k bits |
| Esign.ApplyIff | app/src/main/jni/cryptopp/esign.cpp:53-57 | s maps to x exactly when s^e mod n lies between x and x + 1 times 2^(2k + 2), with no upper end for the largest image |
| Esign.ThirdsFit | app/src/main/jni/cryptopp/esign.h:49 | 3k + 2 bits fit below the modulus and 3k + 5 do not |
| Esign.AcceptedIff | app/src/main/jni/cryptopp/esign.cpp:159-172 | a draw is kept exactly when fewer than 2^(2k + 1) steps lead from the shifted message up to a number congruent to r^e modulo pq |
| Esign.Binomial | app/src/main/jni/cryptopp/esign.cpp:174-176 | (r + d)^e is r^e plus d times the slope plus a multiple of d^2 |
| Esign.Lands | app/src/main/jni/cryptopp/esign.cpp:163-176 | with the computed t, s^e is congruent to the shifted message plus the slack w1 |
| Esign.SlackFits | app/src/main/jni/cryptopp/esign.cpp:162-172 | an accepted slack keeps the sum below n and the message in its top bits |
| Esign.CalculateRandomizedInverse | app/src/main/jni/cryptopp/esign.cpp:151-190 | it takes the first accepted draw; s is below n and ApplyFunction(s) = x exactly when the draw is usable or is a preimage itself, for every x below 2^k; with prime p usable means that p divides neither the draw nor the exponent; without an accepted draw there is no result |
| Esign.UsableIff | app/src/main/jni/cryptopp/esign.cpp:174-175 | for prime p a draw is usable exactly when p divides neither the draw nor the exponent |
| Esign.ZeroDrawFails | app/src/main/jni/cryptopp/esign.cpp:161-176 | with the primes p = 211 and q = 223 and x = 1 the draw 0 is accepted and its result is not a preimage |
| Esign.ModulusSize | app/src/main/jni/cryptopp/esign.cpp:106-128 | primes from the generated range give a modulus of exactly the requested size |
| Adler.RawReduces | app/src/main/jni/cryptopp/adler32.cpp:24-26 | reducing sums at the end gives what reducing after every byte gives |
| Adler.FirstBytes | app/src/main/jni/cryptopp/adler32.cpp:15-27 | the bytes up to a multiple of eight, with one conditional subtraction, give the checksum |
| Adler.EightBytes | app/src/main/jni/cryptopp/adler32.cpp:31-38 | the unrolled block adds eight bytes without leaving 32 bits, and s1 stays below twice the base |
| Adler.HeadroomShrinks | app/src/main/jni/cryptopp/adler32.cpp:40-46 | between reductions 0x8000 bytes apart s2 never reaches 2^32 |
| Adler.ChecksumConcat | app/src/main/jni/cryptopp/adler32.cpp:8-54 | the checksum of a concatenation continues from that of its first part |
| Adler.ChecksumIs | app/src/main/jni/cryptopp/adler32.cpp:8-54 | s1 is one plus the sum of the bytes and s2 the length plus every byte times its distance from the end, both modulo 65521 (section 8.2 of RFC 1950) |
| Adler.Adler32.Update | app/src/main/jni/cryptopp/adler32.cpp:8-54 | one call advances the byte-by-byte modular checksum of RFC 1950 by its input and leaves both sums reduced |
| Adler.Adler32.TruncatedFinal | app/src/main/jni/cryptopp/adler32.cpp:56-80 | the digest is s2 then s1, most significant byte first, cut to the size, and the state starts over; more than four bytes are refused |
| BlockChaining.AdvancedProcessBlocks | app/src/main/jni/cryptopp/cryptlib.cpp:181-230 | with the flags that chain in place, whole blocks are chained one after the other and the rest is reported as left over |
| BlockChaining.ChainConcat | app/src/main/jni/cryptopp/cryptlib.cpp:203-227 | chaining a concatenation of whole blocks continues from chaining its first part |
| BlockChaining.ChainStep | app/src/main/jni/cryptopp/cryptlib.cpp:203-227 | one block more enciphers the exclusive-or, byte by byte, of the chain so far and the block |
| BlockChaining.XorIntoAt | app/src/main/jni/cryptopp/misc.cpp:28-59 | a folded byte differs from the old one by the byte folded in, and all others stay |
| BlockChaining.XorUndone | app/src/main/jni/cryptopp/misc.cpp:28-59 | folding the same bytes in twice gives the block back |
| Cmac.ShiftInPlace | app/src/main/jni/cryptopp/cmac.cpp:13-21 | the loop over pairs of bytes shifts the whole string left by one bit and reports the lost one |
| Cmac.MulU | app/src/main/jni/cryptopp/cmac.cpp:11-41 | the result is the shifted string with the constant of its length folded in; it fails exactly where a bit is lost at another length |
| Cmac.TimesIsTimesU | app/src/main/jni/cryptopp/cmac.cpp:23-40 | the polynomial of the result is u times the old one, reduced modulo the polynomial of the code |
| Cmac.Field256Iff | app/src/main/jni/cryptopp/cmac.cpp:33-36 | for 32 bytes the result agrees with u^256 + u^10 + u^5 + u^2 + 1 exactly when the top bit is clear |
| Cmac.Modulus256Factors | app/src/main/jni/cryptopp/cmac.cpp:33-36 | u^2 + u + 1 divides the polynomial used for 32 bytes |
| Cmac.CMAC.constructor | app/src/main/jni/cryptopp/cmac.cpp:43-56 | a new message under the given subkeys, with nothing held |
| Cmac.UncheckedSetKey | app/src/main/jni/cryptopp/cmac.cpp:43-56 | K1 is u times the cipher of zero and K2 is u times K1; it fails exactly when one of the two products is one that `MulU` refuses |
| Cmac.CMAC.FillPending | app/src/main/jni/cryptopp/cmac.cpp:67-83 | the held block is completed and let go only if more input follows |
| Cmac.CMAC.AbsorbAllButLast | app/src/main/jni/cryptopp/cmac.cpp:85-91 | the block loop leaves between one byte and one block |
| Cmac.CMAC.Update | app/src/main/jni/cryptopp/cmac.cpp:58-101 | the input is appended to the message; after any input between one byte and a whole block is held back |
| Cmac.CMAC.TruncatedFinal | app/src/main/jni/cryptopp/cmac.cpp:103-122 | for a positive multiple of the block size the tag chains the message with K1 folded into its last block, for every other length with 0x80 and zeros behind it and K2 folded in (section 6.2 of NIST SP 800-38B); it is cut to the size, and more than a block is refused |
| Cmac.TagIsChain | app/src/main/jni/cryptopp/cmac.cpp:103-122 | the same of the tag defined block by block |
| Ccm.AuthenticateData | app/src/main/jni/cryptopp/authenc.cpp:11-46 | whatever the cut, all whole blocks fed so far are chained and the rest waits in the buffer |
| Ccm.SetKeyWithoutResync | app/src/main/jni/cryptopp/ccm.cpp:11-26 | a keyed object for tags of 4, 6, 8, 10, 12, 14 or 16 bytes and for no other size |
| Ccm.CCM.constructor | app/src/main/jni/cryptopp/ccm.cpp:11-26 | a keyed object in its first state |
| Ccm.CCM.Resynchronize | app/src/main/jni/cryptopp/authenc.cpp:62-73 | accepts a nonce of 7 to 13 bytes once a key is set and starts an untouched message |
| Ccm.CCM.Resync | app/src/main/jni/cryptopp/ccm.cpp:28-49 | the counter block holds flags and nonce and the keystream is positioned behind its first block |
| Ccm.CCM.SpecifyDataLengths | app/src/main/jni/cryptopp/cryptlib.cpp:257-269 | accepts lengths within the bounds right after the nonce, and then exactly the first block and the length prefix have been fed |
| Ccm.CCM.UncheckedSpecifyDataLengths | app/src/main/jni/cryptopp/ccm.cpp:51-91 | B_0 and the header length prefix of appendix A of NIST SP 800-38C |
| Ccm.CCM.WriteHeaderLength | app/src/main/jni/cryptopp/ccm.cpp:67-90 | the two, six or ten byte form of the header length |
| CcmFormat.FirstBlockReads | app/src/main/jni/cryptopp/ccm.cpp:62-64 | the first block reads back as flags (section A.2.1 of NIST SP 800-38C), nonce and message length |
| CcmFormat.HeaderLengthReads | app/src/main/jni/cryptopp/ccm.cpp:67-90 | the header length in front of the header reads back, whatever follows (section A.2.2) |
| CcmFormat.FormattedReads | app/src/main/jni/cryptopp/ccm.cpp:51-130 | the whole formatted input reads back as nonce, tag length, header and message |
| CcmFormat.FormattedUnique | app/src/main/jni/cryptopp/ccm.cpp:51-130 | no two inputs are formatted alike |
| CcmFormat.CounterBlockReads | app/src/main/jni/cryptopp/ccm.cpp:37-39 | the counter block reads back as the size of its counter, the nonce and counter zero (section A.3) |
| CcmFormat.CounterIsNotFirst | app/src/main/jni/cryptopp/ccm.cpp:37-62 | no counter block begins like a first block |
| CcmFormat.MaxMessageLengthFits | app/src/main/jni/cryptopp/ccm.h:48-49 | a message length is admitted exactly when it fits its field |
| Ccm.CCM.Update | app/src/main/jni/cryptopp/authenc.cpp:75-102 | header data is appended to the header; once the message has begun it is footer data, accepted exactly when the message has its announced length |
| Ccm.CCM.FinishBlock | app/src/main/jni/cryptopp/ccm.cpp:108-113 | the waiting bytes are chained with zeros behind them |
| Ccm.CCM.BeginMessage | app/src/main/jni/cryptopp/ccm.cpp:100-114 | the header must have the announced length and is padded to whole blocks |
| Ccm.CCM.ProcessPiece | app/src/main/jni/cryptopp/authenc.cpp:122-130 | the output is the input combined with the keystream at its place, and the plaintext side is authenticated |
| Ccm.CCM.ProcessData | app/src/main/jni/cryptopp/authenc.cpp:104-134 | in the right state, with a complete header and within the maximal length, the message grows by the plaintext of the piece |
| Ccm.CCM.FinishMessage | app/src/main/jni/cryptopp/ccm.cpp:116-130 | the whole formatted input has been chained |
| Ccm.CCM.TruncatedFinal | app/src/main/jni/cryptopp/authenc.cpp:136-176 | accepts exactly when both lengths are the announced ones and no footer was fed, and the tag is the CBC-MAC of the formatted input masked with keystream block 0 |
| Ccm.CCM.TruncatedVerify | app/src/main/jni/cryptopp/cryptlib.cpp:411-423 | refuses a tag longer than the digest before anything else; otherwise accepts exactly the tag |
| Ccm.CCM.EncryptAndAuthenticate | app/src/main/jni/cryptopp/cryptlib.cpp:271-278 | for every nonce, header and message within the bounds the output is the encryption and tag of NIST SP 800-38C |
| Ccm.CCM.DecryptAndVerify | app/src/main/jni/cryptopp/cryptlib.cpp:280-287 | with a tag not longer than the digest it accepts exactly the pairs that encryption makes, and returns the one message they were made from; a longer tag is refused |
| Ccm.CCM.InPieces | app/src/main/jni/cryptopp/authenc.cpp:75-176 | header and message in any pieces give the same output and tag as in one piece |
| Ccm.SealedIs | app/src/main/jni/cryptopp/cryptlib.cpp:271-278 | byte by byte: ciphertext and message differ by the keystream behind its first block, tag and CBC-MAC of an input that reads back as nonce, header and message by the first keystream block |
| Ccm.Exchange | app/src/main/jni/cryptopp/cryptlib.cpp:271-287 | for every nonce, header and message within the bounds, what one object seals another one reads back and accepts exactly when the tag is not longer than the digest |
| Ccm.LongTagRefused | app/src/main/jni/cryptopp/cryptlib.cpp:411-423 | with a digest of 4 bytes a tag of 16 is made and then refused |
| BlockQueues.RingPut | app/src/main/jni/cryptopp/filters.cpp:301-313 | writing up to the end of the buffer and the rest at its start appends to the ring |
| BlockQueues.BlockQueue.ResetQueue | app/src/main/jni/cryptopp/filters.cpp:253-260 | an empty queue of the given capacity |
| BlockQueues.BlockQueue.GetBlock | app/src/main/jni/cryptopp/filters.cpp:262-274 | the first block leaves the queue; without a whole block nothing changes |
| BlockQueues.BlockQueue.GetContigousBlocks | app/src/main/jni/cryptopp/filters.cpp:276-285 | some of the first bytes leave the queue in order, all of those asked for if the queue starts at its buffer |
| BlockQueues.BlockQueue.GetAll | app/src/main/jni/cryptopp/filters.cpp:287-299 | all bytes leave the queue in order |
| BlockQueues.BlockQueue.Put | app/src/main/jni/cryptopp/filters.cpp:301-313 | the bytes join the queue at its end, within its capacity |
| BufferedInput.Capacity | app/src/main/jni/cryptopp/filters.cpp:372 | floor((2*block + last - 2)/block) blocks hold what is ever kept |
| BufferedInput.PassedUnique | app/src/main/jni/cryptopp/filters.cpp:381-424 | what is passed on is the only multiple of the block size that leaves between last and last + block - 1 bytes |
| BufferedInput.DeliveredMore | app/src/main/jni/cryptopp/filters.cpp:381-424 | more whole blocks behind what was delivered are what the longer message delivers |
| BufferedInput.FilterWithBufferedInput.constructor | app/src/main/jni/cryptopp/filters.cpp:327-334 | an empty queue for the first piece |
| BufferedInput.FilterWithBufferedInput.TakeFirst | app/src/main/jni/cryptopp/filters.cpp:366-377 | the first piece is the first bytes of the message; its size, passed by reference, stays as it was |
| BufferedInput.FilterWithBufferedInput.PassBytes | app/src/main/jni/cryptopp/filters.cpp:381-398 | with blocks of one byte everything beyond the bytes to keep is handed out in order |
| BufferedInput.FilterWithBufferedInput.PassBlocks | app/src/main/jni/cryptopp/filters.cpp:399-424 | blocks from the queue, a block filled from the input and blocks of the input are handed out in order |
| BufferedInput.FilterWithBufferedInput.Put | app/src/main/jni/cryptopp/filters.cpp:362-428 | after any piece the hooks have seen, and the queue holds, what the message so far determines; the capacity is never exceeded |
| BufferedInput.FilterWithBufferedInput.EndMessage | app/src/main/jni/cryptopp/filters.cpp:430-437 | the hooks have seen the first piece, whole blocks and the rest of the whole message |
| BufferedInput.FilterWithBufferedInput.Restart | app/src/main/jni/cryptopp/filters.cpp:439-440 | ready for the next message |
| BufferedInput.FilterWithBufferedInput.Deliver | app/src/main/jni/cryptopp/filters.cpp:357-446 | for every way of cutting a message the first piece, the concatenated middle, a multiple of the block size, and the last piece are the same |
| StreamTransformation.RunConcat | app/src/main/jni/cryptopp/filters.cpp:636-661 | transforming a concatenation of blocks continues from its first part |
| StreamTransformation.RunUndone | app/src/main/jni/cryptopp/filters.cpp:636-661 | a mode that undoes another block by block undoes it on whole messages |
| StreamTransformation.PadMessageIs | app/src/main/jni/cryptopp/filters.cpp:671-729 | the padded message is the message and then as many bytes as were added, each with that value; or 0x80 and zeros; or zeros up to the block; or nothing |
| StreamTransformation.PaddingUnique | app/src/main/jni/cryptopp/filters.cpp:719-729 | no block ends in two paddings |
| StreamTransformation.UnpadPkcs | app/src/main/jni/cryptopp/filters.cpp:738-744 | accepts exactly the blocks that end in PKCS padding (section 6.3 of RFC 5652) |
| StreamTransformation.UnpadOneAndZeros | app/src/main/jni/cryptopp/filters.cpp:745-751 | accepts exactly the blocks that end in a one bit and zeros |
| StreamTransformation.PadMessageUnique | app/src/main/jni/cryptopp/filters.cpp:715-732 | no two messages have the same padded form |
| StreamTransformation.DecryptsIff | app/src/main/jni/cryptopp/filters.cpp:601-609 | a ciphertext decrypts to a message exactly when it is its encryption and, without a marked padding, the message fills its blocks |
| StreamTransformation.StreamTransformationFilter.constructor | app/src/main/jni/cryptopp/filters.cpp:601-627 | an empty filter that keeps back one block when it decrypts a marked padding |
| StreamTransformation.StreamTransformationFilter.Put | app/src/main/jni/cryptopp/filters.cpp:629-667 | the output so far is the transformation of the blocks passed on so far |
| StreamTransformation.StreamTransformationFilter.NextPutMultiple | app/src/main/jni/cryptopp/filters.cpp:636-661 | whatever space the attached transformation offers, the output is the transformation of the whole input |
| StreamTransformation.StreamTransformationFilter.LastPut | app/src/main/jni/cryptopp/filters.cpp:669-759 | encryption completes the encryption of the padded message and refuses exactly a message that needs padding and gets none; decryption accepts exactly what the mode turns into a padded message, or into whole blocks where padding is not marked |
| StreamTransformation.StreamTransformationFilter.EndMessage | app/src/main/jni/cryptopp/filters.cpp:430-444 | encryption returns the encryption of the padded message exactly when it can be cut into blocks; decryption returns a message exactly when there is one |
| StreamTransformation.StreamTransformationFilter.Transform | app/src/main/jni/cryptopp/filters.cpp:357-446 | the same for a whole message in any pieces |
| StreamTransformation.RoundTrip | app/src/main/jni/cryptopp/filters.cpp:601-759 | with modes that undo each other, encryption and decryption under any cutting of message and ciphertext return the message exactly when its padding is marked or it needed none |
| BaseCode.DigitsUnique | app/src/main/jni/cryptopp/basecode.cpp:57-77 | the digits of a string of bits are the only ones that pack to it with fewer than w zeros behind it |
| BaseCode.OrTail | app/src/main/jni/cryptopp/basecode.cpp:62 | or-ing bits into the free end of a digit appends them |
| BaseNEncoding.EncodedIs | app/src/main/jni/cryptopp/basecode.cpp:48-108 | the code is the alphabet applied to digits that spell the bits of the message and fewer than w zeros, and then as few padding characters as complete a block |
| BaseNEncoding.EncoderBlockSize | app/src/main/jni/cryptopp/basecode.cpp:40-43 | the block is the smallest number of characters that stand for whole bytes |
| BaseNEncoding.AddDigit | app/src/main/jni/cryptopp/basecode.cpp:60-76 | one step puts the first bits of the byte behind the bits of the current character |
| BaseNEncoding.BaseNEncoder.constructor | app/src/main/jni/cryptopp/basecode.cpp:22-46 | an empty encoder |
| BaseNEncoding.BaseNEncoder.PutByte | app/src/main/jni/cryptopp/basecode.cpp:56-79 | the eight bits of a byte are appended to the bits in the buffer |
| BaseNEncoding.BaseNEncoder.Translate | app/src/main/jni/cryptopp/basecode.cpp:85-89 | digits become characters of the alphabet |
| BaseNEncoding.BaseNEncoder.Output | app/src/main/jni/cryptopp/filters.cpp:127-134 | the attached transformation takes all of the data, or the filter remembers where to continue; an attached grouper is called and has then taken what was delivered |
| BaseNEncoding.BaseNEncoder.PutInput | app/src/main/jni/cryptopp/basecode.cpp:51-94 | whatever is blocked, the characters delivered and pending are those of the bytes taken so far |
| BaseNEncoding.BaseNEncoder.LastBlock | app/src/main/jni/cryptopp/basecode.cpp:95-108 | the last characters, with padding, complete the code of the message |
| BaseNEncoding.BaseNEncoder.Put2 | app/src/main/jni/cryptopp/basecode.cpp:48-113 | a call that is not blocked, first or repeated, appends its input, and at the end of the message exactly the code of the message has been delivered and an attached grouper has finished its own message |
| BaseNEncoding.BaseNEncoder.Finish | app/src/main/jni/cryptopp/basecode.cpp:95-112 | at the end of the message the last characters go out with the end signal, in one call or its repetitions |
| BaseNEncoding.BaseNEncoder.PutMessage | app/src/main/jni/cryptopp/fltrimpl.h:14-36 | a message in any pieces, each call blocked any number of times, delivers exactly its code |
| BaseNDecoding.WholeBytesUnique | app/src/main/jni/cryptopp/basecode.cpp:164-174 | the bytes of a string of bits are the only ones that leave less than a byte behind them |
| BaseNDecoding.DecoderBlockSize | app/src/main/jni/cryptopp/basecode.cpp:125-128 | the block of bytes stands for the smallest number of characters that make up whole bytes |
| BaseNDecoding.PlaceWithin | app/src/main/jni/cryptopp/basecode.cpp:148-149 | a digit within its byte is appended to the bits in the buffer |
| BaseNDecoding.PlaceAcross | app/src/main/jni/cryptopp/basecode.cpp:150-154 | so is a digit across two bytes |
| BaseNDecoding.BaseNDecoder.constructor | app/src/main/jni/cryptopp/basecode.cpp:115-131 | an empty decoder |
| BaseNDecoding.BaseNDecoder.PutDigit | app/src/main/jni/cryptopp/basecode.cpp:146-162 | the bits of a digit are appended to the bits in the buffer, never beyond its end |
| BaseNDecoding.BaseNDecoder.AddCharacter | app/src/main/jni/cryptopp/basecode.cpp:138-162 | characters outside the alphabet are skipped, the others append their digit |
| BaseNDecoding.BaseNDecoder.Output | app/src/main/jni/cryptopp/filters.cpp:127-134 | the attached transformation takes all of the data, or the filter remembers where to continue |
| BaseNDecoding.BaseNDecoder.CompleteBytes | app/src/main/jni/cryptopp/basecode.cpp:170-174 | at the end of the text only whole bytes count |
| BaseNDecoding.BaseNDecoder.Put2 | app/src/main/jni/cryptopp/basecode.cpp:133-176 | a call that is not blocked, first or repeated, appends its input, and at the end exactly the whole bytes of the digits have been delivered |
| BaseNDecoding.BaseNDecoder.PutMessage | app/src/main/jni/cryptopp/fltrimpl.h:14-36 | a text in any pieces, each call blocked any number of times, delivers exactly its bytes |
| Grouping.LinesExtend | app/src/main/jni/cryptopp/basecode.cpp:227-231 | characters that fit the last group are appended to it |
| Grouping.LinesBreak | app/src/main/jni/cryptopp/basecode.cpp:221-231 | characters of a new group come behind a separator |
| Grouping.LinesAt | app/src/main/jni/cryptopp/basecode.cpp:214-233 | character r of group q of the grouped text stands behind q whole groups and q separators |
| Grouping.SeparatorAt | app/src/main/jni/cryptopp/basecode.cpp:221-225 | a separator stands behind every group but the last |
| Grouping.LinesLength | app/src/main/jni/cryptopp/basecode.cpp:214-233 | and nothing else is in the text |
| Grouping.Grouper.constructor | app/src/main/jni/cryptopp/basecode.cpp:199-212 | an empty grouper |
| Grouping.Grouper.Output | app/src/main/jni/cryptopp/filters.cpp:127-134 | the attached transformation takes all of the data, or the filter remembers where to continue; an attached decoder is called and has then taken what was delivered |
| Grouping.Grouper.PutGroups | app/src/main/jni/cryptopp/basecode.cpp:217-233 | whatever is blocked, the text delivered is that of the characters taken, with at most the next separator already out |
| Grouping.Grouper.PutGroup | app/src/main/jni/cryptopp/basecode.cpp:219-232 | one group: the separator before it, if any, and then as much of the input as fits |
| Grouping.Grouper.Put2 | app/src/main/jni/cryptopp/basecode.cpp:214-243 | a call that is not blocked, first or repeated, appends its input, and at the end exactly the grouped text with its terminator has been delivered and an attached decoder has delivered its bytes |
| Grouping.Grouper.Finish | app/src/main/jni/cryptopp/basecode.cpp:236-241 | at the end of the text the terminator goes out with the end signal, in one call or its repetitions |
| Grouping.Grouper.PutMessage | app/src/main/jni/cryptopp/fltrimpl.h:14-36 | a text in any pieces, each call blocked any number of times, delivers exactly its groups |
| BaseCodeRoundTrip.InitializeDecodingLookupArray | app/src/main/jni/cryptopp/basecode.cpp:178-197 | the table takes exactly the characters of the alphabet, in both cases where case does not matter, each to its place |
| BaseCodeRoundTrip.ValuesLines | app/src/main/jni/cryptopp/basecode.cpp:214-243 | grouping adds only characters the decoder skips |
| BaseCodeRoundTrip.RoundTrip | app/src/main/jni/cryptopp/basecode.cpp:48-243 | for every width from 1 to 7, injective alphabet and padding, separator and terminator outside it, decoding the grouped code returns exactly the message |
| BaseCodeRoundTrip.Relay | app/src/main/jni/cryptopp/basecode.cpp:48-243 | so do the three filters attached to each other, each call going on into the next filter, under any pieces and any pattern of blocked and repeated calls |
| StandardCodes.StandsIff | app/src/main/jni/cryptopp/basecode.cpp:184-194 | where case does not matter a character stands for itself and for the same letter in the other case, for A-Z and a-z only |
| StandardCodes.Distinct64 | app/src/main/jni/cryptopp/base64.cpp:9-14 | no character occurs twice in either base 64 alphabet, and neither holds the padding or the line break |
| StandardCodes.Base64 | app/src/main/jni/cryptopp/base64.cpp:16-74 | both base 64 codes, with or without padding and line breaks of any length, return the message through the three filters |
| StandardCodes.HexLookup | app/src/main/jni/cryptopp/hex.cpp:28-40 | the table takes exactly 0-9, A-F and a-f, each to its value |
| StandardCodes.HexRoundTrip | app/src/main/jni/cryptopp/hex.cpp:11-40 | hexadecimal in either case, grouped or not, decodes to the message with the table made from the upper case letters |
| BerSource.Source.TransferTo2 | app/src/main/jni/cryptopp/asn.cpp:461-468 | the inner decoder clamps first, and every decoder on the way is debited by the bytes that came through |
| BerSource.DebitedAt | app/src/main/jni/cryptopp/asn.cpp:477-486 | every definite length on the way falls by the bytes read and is never overdrawn |
| BerSource.Source.Get | app/src/main/jni/cryptopp/asn.cpp:461-468 | reading takes the first visible bytes, and open decoders stay nested |
| BerSource.Source.Peek | app/src/main/jni/cryptopp/asn.cpp:470-475 | peeking shows the first visible bytes |
| AsnLength.DERLengthEncode | app/src/main/jni/cryptopp/asn.cpp:17-36 | the length octets of section 10.1 of X.690, and their number |
| AsnLength.BERLengthDecode | app/src/main/jni/cryptopp/asn.cpp:38-74 | the short, long and indefinite forms, the end of the data and an overflow of 64 bits, taking exactly the octets of the form |
| AsnLength.LongFormIs | app/src/main/jni/cryptopp/asn.cpp:60-71 | the long form has the value of its octets and overflows exactly when that does not fit 64 bits |
| AsnLength.LengthRoundTrip | app/src/main/jni/cryptopp/asn.cpp:17-74 | an encoded length decodes to itself and takes exactly its octets, whatever follows |
| AsnLength.LengthMinimal | app/src/main/jni/cryptopp/asn.cpp:17-74 | no definite form of a length is shorter than the encoder's |
| AsnReencoding.Open | app/src/main/jni/cryptopp/asn.cpp:393-404 | a decoder opens exactly on its tag followed by a definite length, or an indefinite one if it is constructed |
| AsnReencoding.TakeHeader | app/src/main/jni/cryptopp/asn.cpp:393-404 | reads tag and length, and takes exactly their octets where they open an element |
| AsnReencoding.EndReached | app/src/main/jni/cryptopp/asn.cpp:419-428 | a definite decoder ends with its length, another at the end-of-contents octets |
| AsnReencoding.MessageEnd | app/src/main/jni/cryptopp/asn.cpp:445-459 | closing succeeds exactly at the end; the element then ends where its length says and lies within every enclosing element |
| AsnReencoding.CopyContent | app/src/main/jni/cryptopp/asn.cpp:208-209 | the content of a definite element, as far as the enclosing decoders let it through |
| AsnReencoding.ReencodeContents | app/src/main/jni/cryptopp/asn.cpp:210-214 | the elements up to the end-of-contents octets are re-encoded in order |
| AsnReencoding.DERReencode | app/src/main/jni/cryptopp/asn.cpp:202-217 | succeeds exactly on a well-formed element, takes exactly its octets, debits the enclosing decoders by them and writes the re-encoded element |
| AsnElements.ReencodeDefinite | app/src/main/jni/cryptopp/asn.cpp:513-520 | the output is one element of definite length with the same tag |
| AsnElements.ReencodeKeepsTree | app/src/main/jni/cryptopp/asn.cpp:202-217 | input and output have the same tree and end where it ends, or neither has one |
| AsnElements.ReencodeAgain | app/src/main/jni/cryptopp/asn.cpp:202-217 | a definite element with minimal length re-encodes to itself |
| AsnElements.DefiniteIff | app/src/main/jni/cryptopp/asn.cpp:208-214 | the output is definite throughout exactly when the input hides no indefinite element in a definite one |
| AsnElements.HiddenStays | app/src/main/jni/cryptopp/asn.cpp:208-209 | a definite element that holds an indefinite one is copied as it is |
| AsnPrinter.Accepted | app/src/main/jni/cryptopp/asn.cpp:202-217 | every element with constructed tags 64c + 32 + k and either length form at each constructed node is accepted, taken whole whatever follows, has its tree, and is written with definite lengths down to its definite parts |
| AsnPrinter.PrimitiveRefused | app/src/main/jni/cryptopp/asn.cpp:402-403 | with a tag 64c + k the indefinite form is refused |
| AsnOid.EncodeValue | app/src/main/jni/cryptopp/asn.cpp:219-224 | groups of seven bits, all but the last marked |
| AsnOid.DecodeValue | app/src/main/jni/cryptopp/asn.cpp:226-243 | reads an arc and refuses one that does not fit 32 bits |
| AsnOid.ArcRoundTrip | app/src/main/jni/cryptopp/asn.cpp:219-243 | an arc of 32 bits decodes to itself and takes exactly its octets |
| AsnOid.ArcMinimal | app/src/main/jni/cryptopp/asn.cpp:219-224 | an arc never starts with an empty group (section 8.19.2 of X.690) |
| AsnOid.DEREncode | app/src/main/jni/cryptopp/asn.cpp:245-255 | tag, length and content octets of an identifier |
| AsnOid.BERDecode | app/src/main/jni/cryptopp/asn.cpp:257-284 | accepts exactly the identifiers and takes exactly their octets |
| AsnOid.DecodedEncoded | app/src/main/jni/cryptopp/asn.cpp:245-284 | what comes back of any identifier with 32-bit arcs |
| AsnOid.RoundTripIff | app/src/main/jni/cryptopp/asn.cpp:249-273 | an identifier comes back exactly when its second arc is below 40 and its first two fit their octet |
| AsnUnsigned.DEREncodeUnsigned | app/src/main/jni/cryptopp/asn.h:315-340 | tag, length and the fewest octets with a clear sign bit; 0 or 255 for a boolean |
| AsnUnsigned.Trim | app/src/main/jni/cryptopp/asn.h:327-334 | leading zeros go, but for one in front of a set sign bit |
| AsnUnsigned.WordOf | app/src/main/jni/cryptopp/asn.h:361-375 | a content is accepted exactly when its value fits the word and the range, and is that value |
| AsnUnsigned.BERDecodeUnsigned | app/src/main/jni/cryptopp/asn.h:343-376 | accepts exactly the elements with the tag and such a content and takes exactly their octets |
| AsnUnsigned.RoundTrip | app/src/main/jni/cryptopp/asn.h:315-376 | everything but a boolean decodes to itself and takes exactly its octets, whatever follows |
| AsnUnsigned.BooleanIff | app/src/main/jni/cryptopp/asn.h:320-324 | a boolean decodes to itself exactly when it is 0 or 255 |
| AsnUnsigned.ContentMinimal | app/src/main/jni/cryptopp/asn.h:330-334 | the first nine bits are not all zero and no other non-negative form is shorter (section 8.3.2 of X.690) |

## Left out

- The application itself (`nfd-wrapper`, JNI glue), the block cipher bodies and tables, files, CPU probing, benchmarks: no
  properties of this depth, or code that is not part of this model.
- `Integer`, `ModularArithmetic` and CTR mode: mathematical integers, an abstract field and an abstract keystream stand in
  for them. `InverseMod` in ESIGN is stood in for by the extended Euclid of `QuotientRing`.
- Associativity of the curve's addition is a hypothesis (`CurveLaws.Associative`), and so is that a change of representation
  is an isomorphism of fields. `SmallCurve.SmallIsLawful` meets the hypothesis on a curve of four points.
- `Load` and `Save` of fixed-base tables: the loaded table is not checked by the code.
- Irreducibility of the polynomials for 8- and 16-byte blocks in `MulU` is not proved.
- Random generation: ESIGN's draws are a list, and primality is a hypothesis where it is used.
- Wrap-around of 64-bit byte counts in CCM, and lengths of 2^64 bytes and more anywhere.
- BlockChaining.AdvancedProcessBlocks: the flags that chain in place (`BT_DontIncrementInOutPointers`, `BT_XorInput`) only,
  the ones CMAC and CCM pass; counter and parallel modes are not modelled.
- Cmac.UncheckedSetKey: even block sizes only, because `MulU` works on pairs of bytes.
- EcpMultiplication.SimultaneousMultiply: exponents must not be zero, because a zero exponent hands an empty list to the
  cascade, which reads before its first element.
- SimultaneousMultiplication.SumBuckets: the buckets are sequences; that the source updates them in place is not captured.
- CascadeScalarMultiplication.FillTable: the power table is a sequence that is replaced at each store.
- Ccm.CCM.EncryptAndAuthenticate: on an object made for encryption, and DecryptAndVerify on one made for decryption.
- BlockQueues.BlockQueue.GetBlock: returns the bytes and not their place in the buffer.
- BufferedInput.FilterWithBufferedInput.constructor: sizes the source refuses with an exception are a precondition; the
  calls of the derived hooks are recorded in order, and the derived filter carries them out at the end of each call.
- `IsolatedFlush` and `ForceNextPut` and channels of the filters; the end of a message always travels on to the attached
  filter (propagation -1, the default).
- StreamTransformation.StreamTransformationFilter.LastPut: modes with their own last block (`MinLastBlockSize`) are left
  out.
- BaseNEncoding.BaseNEncoder.Output: the attached filter is a grouper or any transformation that takes the data later, and
  for Grouping.Grouper a decoder.
- BaseNEncoding.BaseNEncoder.Put2: its non-zero return value says no more than that the call is to be repeated, because
  the macro subtracts the input position from the length of the output.
- AsnReencoding.DERReencode: says nothing of the output when the element is refused; the source's destructors then still
  write what they have. The input is short enough for the output's length to fit 64 bits.
- `EncodedObjectFilter`, `MeterFilter`, `ChannelSwitch`, octet, bit and text strings, key formats: further members without
  harder properties.
- Timing, exception texts and any claim about cryptographic strength.
