# Verified model of the arithmetic, memory and execution core

This project models the hardest parts of the emulator core in Dafny and proves that they compute what
they are meant to compute.  It has three layers.

**The multi-limb integer engine (`uint_wide.h`).**  A number is an array of limbs in a base `B`, and
`Limbs.Val` is the natural number that the limbs denote.  Everything is generic in `B` and in the number of
limbs.  The kernels (add, subtract, multiply by a limb, schoolbook, low part, Karatsuba, Knuth's
Algorithm D, shifts, negation) work in place on arrays, with offsets in place of the source's iterators and
with double-limb arithmetic that wraps explicitly (`Limbs.Dbl`, `Lo`, `Hi`); each is proved against plain
integer arithmetic, together with what it leaves untouched.  The class `WideInteger.UintWide` is the
source's `uintwide_t`: its operators are built from those kernels and are proved against the two's
complement reading of the limbs (`TwosComplement.Number`).  Above it stand square root, modular power,
binary gcd and the Miller-Rabin test, with the number theory that they need (Bezout, Euclid's lemma, the
binomial theorem, Fermat's little theorem), the number printer and parser, and the importer and exporter of
bit chunks.

**Paged memory and the instruction caches (`memory.cpp`, `executor.cpp`).**  `PagedMemory` is the
specification: a map from page numbers to bytes and permissions.  `GuestMemory.Memory` is the class with the
page table, the direct-mapped TLB and the epochs; its invariant says that a TLB slot of the current epoch
agrees with the page table, and each method is proved to act on the byte map as the specification says.
`InstructionExecutor.Executor` has the decode cache and the code-page cache; its invariant says that an entry
of the current code epoch holds what a fresh fetch and decode would give.  `RunEvents` then shows that an
arbitrary interleaving of map, unmap, reprotect, write, restore and step has the outcomes and the final
memory of a machine without caches (`InstructionExecutor.Run`).

**Instructions on top of both (`handlers/`, `handler_helpers.cpp`).**  DIV, IDIV, MUL and IMUL at every width
are proved against the mathematical quotient, remainder and product with the exact fault and overflow
conditions; the 64-bit forms go through the 128-bit `UintWide`.  The flag computations are proved against
carries, borrows and overflow of unbounded integers, and PEXT and PDEP are proved to invert each other.

Six properties that one would expect are false of the code, and the model says exactly when they hold:

- Karatsuba halves the number of limbs down to 48 without looking at parity, and loses the top limb of an odd
  count above 48.  The recursion is modelled for every count; `KaratsubaRecursion.MultipliesExactly` shows that
  it multiplies if and only if the count halves evenly.  The width check of the class (`uint_wide.h:2096-2104`)
  also admits other counts: `Lost196` is one.  None of the aliases at `uint_wide.h:5556-5568` is.
- A write over several pages that fails after it has changed executable bytes does not move the code epoch,
  so the caches can go stale.  `PagedMemory.StaleExactlyWhenTorn` shows that this is the only way code changes
  unnoticed, and `InstructionExecutor.RightExactlyWhenNoneHit` that after such a *torn* write the caches are right
  exactly when it hits no entry of the current epoch.  The theorems over whole runs admit torn writes as long as
  they change no code in a page from which an instruction has been fetched since the epoch last moved;
  `InstructionExecutor.StaleRun` is a run of four events in which a step executes an instruction that is no longer
  in memory.
- Miller-Rabin reduces its operand by screening constants that are first converted to the number's own type.
  In a type too narrow for them it can reject a prime: `MillerRabin.PrimeAccepted` gives the exact condition,
  `NoPrimeRejected` the case of types that hold the constants, `NarrowTypeRejectsPrime` an example.
- Export by whole limbs copies the limbs of a negative number instead of those of its magnitude:
  `BitChunks.ExportedExactly` says when the magnitude comes out all the same, `ExportedMinusOne` is an example,
  and the round trips are stated under that condition.
- The gcd of a signed type takes the most negative number for its own magnitude, and its loop then runs on -1.
  `Modular.GcdSigned` gives the right result exactly for the operands of `GcdRight`, `Modular.EndsExactly` says
  when the loop ends at all, and `Modular.TopAndThree` is an operand for which it gives -3 in a type of more than
  two limbs and never ends in a narrower one.
- The lookup of memory-mapped regions compares ends that wrap: `MappedRegions.MatchesExactly` says when that is
  containment, `WrappedMatch` is an access that matches a region it does not lie in.

Where a comment and the code differ the model follows the code: the comment in `operator%=` lets the sign of
the remainder follow the denominator, the code lets it follow the numerator.

## Files

| file | content |
|---|---|
| `limbs.dfy`, `limb_digits.dfy` | powers, division lemmas, limb sequences, their values and digits, double-limb arithmetic |
| `kernels.dfy`, `multiply.dfy`, `karatsuba_recursion.dfy`, `karatsuba.dfy` | carry chains and multiplication; the recursion as a function and its in-place form |
| `quotient_digit.dfy`, `division.dfy`, `long_division.dfy` | Algorithm D |
| `twos_complement.dfy`, `bits.dfy`, `shifts.dfy`, `wide_integer.dfy` | signed reading, bits, shifts, the class |
| `number_theory.dfy`, `roots.dfy`, `modular.dfy`, `miller_rabin.dfy` | number theory, sqrt, powm, gcd, primality |
| `numerals.dfy`, `text.dfy`, `bit_chunks.dfy` | digits, printing and reading, bit chunks |
| `paged_memory.dfy`, `memory.dfy`, `mmio.dfy`, `executor.dfy` | memory, TLB, MMIO regions, instruction caches |
| `cpu.dfy`, `arithmetic_handlers.dfy` | registers, flags, DIV/IDIV/MUL/IMUL |
| `options.dfy` | the option type |

## Model

| member | source | states |
|---|---|---|
| `Kernels.EvalAddN` | uint_wide.h:3869-3907 | the limb-wise sum with its carry is exactly u + v, also when the result overwrites an operand in place; nothing outside the result changes |
| `Kernels.EvalSubtractN` | uint_wide.h:3911-3958 | the difference is exact and a borrow comes out exactly when u < v; nothing else changes |
| `Kernels.EvalMultiply1d` | uint_wide.h:4564-4640 | result and carried limb together are exactly a times one limb; the double-limb accumulator never overflows |
| `Kernels.CompareRanges` | uint_wide.h:3629-3659 | 1, -1 or 0 exactly as the numbers, not the limbs, compare |
| `Kernels.PropagateCarry` | uint_wide.h:4644-4671 | adds a carry modulo the size of the range although it stops at the first limb that does not wrap |
| `Kernels.PropagateBorrow` | uint_wide.h:4675-4706 | takes off a borrow modulo the size of the range although it stops early |
| `Multiply.EvalMultiplyNByNTo2n` | uint_wide.h:4510-4560 | the schoolbook loops leave the exact product in 2n limbs |
| `Multiply.EvalMultiplyNByNToLoPart` | uint_wide.h:4411-4505 | the generic low-part loops leave the product modulo B^n |
| `Multiply.Unrolled4Correct` | uint_wide.h:3966-4101 | the unrolled four-limb kernel, half-width shortcut and general branch alike, is the product modulo B^4 and its column accumulators do not overflow |
| `Multiply.EvalMultiply4By4ToLoPart` | uint_wide.h:3966-4101 | the four-limb kernel writes exactly those four limbs |
| `Multiply.LoPartIsLowHalf` | uint_wide.h:4411-4560 | all kernels agree: what any low-part kernel leaves is, limb for limb, the low half of the full product |
| `Karatsuba.EvalMultiplyKaraNByNTo2n` | uint_wide.h:4713-4855 | for every limb count, aliased or not, r becomes what the recursion says, and the product a times b where the count halves evenly; only r and 4n limbs of scratch are touched, and the stale scratch plays no part |
| `Karatsuba.KaraCross` | uint_wide.h:4809-4837 | the scratch holds the product of the half differences, or stale limbs with sign 0 when halves compare equal, and above it what stood there before |
| `Karatsuba.KaraSum` | uint_wide.h:4793-4807 | after steps 1 and 2 the result is the half products with both of them added at the middle, and the scratch keeps the half products |
| `Karatsuba.MiddleDone` | uint_wide.h:4801-4853 | changing the middle and propagating the carry or borrow into the limbs above changes both together by exactly that number |
| `KaratsubaRecursion.Identity` | uint_wide.h:4742-4773 | the identity behind the steps: the sum of halves and the shifted cross term make the product |
| `KaratsubaRecursion.KaraSizeIff` | uint_wide.h:4720-4775 | a limb count halves evenly down to the cutoff exactly when it is c * 2^k with c at most 48 |
| `KaratsubaRecursion.KaraSizeOddPart` | uint_wide.h:4720-4775 | that is, exactly when its odd part is at most 48 |
| `KaratsubaRecursion.LevelSums` | uint_wide.h:4793-4853 | everything that stands in the result after each step fits in 2n limbs, so that no carry or borrow is lost past the top |
| `KaratsubaRecursion.KaraCorrect` | uint_wide.h:4713-4855 | for a count that halves evenly the recursion leaves the product, whatever the result held before |
| `KaratsubaRecursion.KaraZero` | uint_wide.h:4713-4855 | for every count a zero operand leaves a zeroed result zero |
| `KaratsubaRecursion.KaraLost` | uint_wide.h:4713-4855 | for any other count B^(n-1) times 1 leaves zero: the top limb of an odd count above 48 is lost |
| `KaratsubaRecursion.MultipliesExactly` | uint_wide.h:3831-3866 | on a zeroed result the procedure multiplies all operands of n limbs, in 2n limbs and in the n low ones that the class keeps, if and only if n halves evenly down to 48 |
| `KaratsubaRecursion.Lost196` | uint_wide.h:2096-2104 | 196 limbs, 6272 bits in 32-bit limbs, is a width the class admits and is not such a count: B^195 times 1 gives zero |
| `QuotientDigit.FirstGuess` | uint_wide.h:5056-5071 | the two-by-one limb guess is never below the true quotient digit |
| `QuotientDigit.TestIsSafe` | uint_wide.h:5073-5115 | a guess that the three-limb test rejects is above the true digit |
| `QuotientDigit.TestIsSharp` | uint_wide.h:5073-5115 | a guess that passes the test is at most one above the true digit, for any leading limb |
| `QuotientDigit.Normalised` | uint_wide.h:4969-4999 | multiplying by floor(B / (v1 + 1)) brings the leading limb to at least B / 2 |
| `Division.TestMeaning` | uint_wide.h:5088-5110 | the test in wrapping double-limb arithmetic means q * (v1 B + v2) <= (u0 B + u1) B + u2, and a failing test leaves room for the next one |
| `Division.CorrectGuess` | uint_wide.h:5056-5115 | the correction loop ends at the largest digit that passes, after at most two decrements when the divisor is normalised |
| `Division.GuessBounds` | uint_wide.h:5056-5115 | the corrected digit is the true one or one more |
| `Division.MultiplySubtract` | uint_wide.h:5117-5158 | leaves the true digit and remainder; add-back happens exactly when the digit was one too large, and the stale top limb it leaves plays no part in the value kept |
| `Division.KnuthStep` | uint_wide.h:5054-5167 | one pass produces one true quotient digit and the true running remainder, with at most two corrections when normalised |
| `Division.KnuthLoop` | uint_wide.h:5040-5167 | the loop over j: u = q * v + r with r < v, from the limbs left in place |
| `LongDivision.FactorBounds` | uint_wide.h:4969-4975 | the factor d scales the divisor without overflow and the leading limb to at least B / 2 |
| `LongDivision.ScaledDivisor` | uint_wide.h:5022-5038 | scaling v never carries out of its limbs and scales its leading limb |
| `LongDivision.Normalise` | uint_wide.h:4969-5038 | uu = u * d with one limb more and vv = v * d, leading limb at least half the base |
| `LongDivision.FirstWindow` | uint_wide.h:4969-5054 | the first window is below the scaled divisor, so that every quotient digit fits in a limb |
| `LongDivision.Descale` | uint_wide.h:5160-5226 | the scaled division has the quotient of the unscaled one and its remainder times d |
| `LongDivision.Denormalise` | uint_wide.h:5181-5226 | dividing the scaled remainder by d limb by limb gives the remainder, padded with zeros |
| `LongDivision.EvalDivideBySingleLimb` | uint_wide.h:3189-3255 | division by one limb is exact, with the remainder recovered from the last double-limb numerator |
| `LongDivision.EvalDivideKnuthCore` | uint_wide.h:4947-5228 | both shapes of divisor: values becomes u / v and the remainder u % v |
| `LongDivision.EvalDivideKnuth` | uint_wide.h:4857-4945 | all branches (zero divisor, zero numerator, smaller, equal, long): values becomes u / v and the remainder u % v; a zero divisor gives the maximum and remainder 0 |
| `LongDivision.SetMax` | uint_wide.h:2809-2835 | the maximum of the type: B^n - 1, or B^n / 2 - 1 when signed |
| `TwosComplement.WrapNumber` | uint_wide.h:3151-3186 | a number that fits has exactly one representation, and that denotes it |
| `TwosComplement.NumberWrap` | uint_wide.h:3151-3186 | every representation denotes a number that fits and is the wrapping of it |
| `TwosComplement.SignBit` | uint_wide.h:3269-3281 | the top bit of the top limb is the sign of the number |
| `TwosComplement.TruncModSign` | uint_wide.h:2586-2626 | the remainder of % is smaller than the divisor and carries the sign of the dividend |
| `TwosComplement.FloorModSign` | uint_wide.h:6660-6745 | the remainder of divmod carries the sign of the divisor, and its quotient is one below the truncated one exactly when the signs differ and the division is inexact |
| `Shifts.ShiftBitsLeft` | uint_wide.h:5290-5313 | the bit part of a left shift, limb by limb with OR, is multiplication by 2^s |
| `Shifts.Shl` | uint_wide.h:5264-5315 | a left shift by any amount is multiplication by 2^n modulo the width |
| `Shifts.ShiftBitsRight` | uint_wide.h:5355-5379 | the bit part of a right shift, from the top limb down, is division by 2^s |
| `Shifts.SignKept` | uint_wide.h:5318-5379 | the sign re-read after the limbs have moved is the sign before the shift |
| `Shifts.Shr` | uint_wide.h:5317-5380 | a right shift is floor division by 2^n of the unsigned or of the two's complement value |
| `WideInteger.BitwiseNot` | uint_wide.h:5521-5527 | complement of every limb is B^n - 1 - x |
| `WideInteger.Preincrement` | uint_wide.h:5529-5540 | increments modulo the width although it stops at the first limb that does not wrap |
| `WideInteger.NegateLimbs` | uint_wide.h:3181-3186 | complement and increment is negation modulo the width, of the smallest number too |
| `WideInteger.EvalMulUnary` | uint_wide.h:3786-3866 | the in-place product modulo the width below the threshold and for counts that halve evenly, and otherwise the low half of what the recursion leaves |
| `WideInteger.UintWide.FromNumber` | uint_wide.h:2189-2197 | construction from a built-in integer, negative ones by negating the magnitude, is wrapping |
| `WideInteger.UintWide.Extract` | uint_wide.h:3670-3715 | conversion to a narrower built-in type is reduction modulo its size |
| `WideInteger.UintWide.OrAssign` | uint_wide.h:2643-2658 | OR of numbers without common non-zero limbs is their sum |
| `WideInteger.UintWide.IsNeg` | uint_wide.h:3269-3281 | true exactly when the number is negative |
| `WideInteger.UintWide.Compare` | uint_wide.h:3140-3174 | -1, 0 or 1 as the signed or unsigned numbers compare |
| `WideInteger.UintWide.AddAssign` | uint_wide.h:2460-2480 | the sum of the numbers wrapped, self-addition included |
| `WideInteger.UintWide.SubAssign` | uint_wide.h:2482-2506 | the difference of the numbers wrapped, self-subtraction included |
| `WideInteger.UintWide.MulAssign` | uint_wide.h:2508-2521 | the product of the numbers wrapped, self-multiplication included, below the threshold and for counts that halve evenly; otherwise the low half of what the recursion leaves |
| `WideInteger.UintWide.MulByLimb` | uint_wide.h:2523-2538 | the product with one limb wrapped |
| `WideInteger.UintWide.ShiftLeftAssign` | uint_wide.h:2696-2746 | multiplication by 2^n wrapped; a negative count is floor division |
| `WideInteger.UintWide.ShiftRightAssign` | uint_wide.h:2749-2806 | floor division by 2^n, -1 or 0 once all bits are out; a negative count multiplies |
| `WideInteger.UintWide.DivAssign` | uint_wide.h:2541-2582 | the truncated quotient wrapped; by zero the maximum, by itself 1 |
| `WideInteger.UintWide.ModAssign` | uint_wide.h:2585-2626 | the truncated remainder, with the sign of the dividend; 0 by zero |
| `WideInteger.SignsBack` | uint_wide.h:6722-6742 | growing the quotient and taking the divisor off the remainder turns the division of the magnitudes into floor division |
| `WideInteger.Divmod` | uint_wide.h:6660-6745 | floor quotient and remainder, or the wrapped results that a zero divisor gives |
| `Numerals.RoundTrip` | uint_wide.h:2861-3138 | what the printer renders the reader reads back: decimal signed and unsigned, base 8 and 16 with the base shown |
| `Numerals.ScanNumeral` | uint_wide.h:5383-5519 | reading the digits of x in any of the bases yields x modulo the width |
| `Numerals.ReadWithBase` | uint_wide.h:5383-5519 | with its base given, a numeral of x without a prefix reads as x modulo the width, and negated after a minus sign |
| `Numerals.LeadingZero` | uint_wide.h:5414-5446 | without a base a leading zero makes a numeral octal, unless a 9 comes next |
| `Numerals.LeadingZeroDigits` | uint_wide.h:5414-5446 | so "08" is no number and "09" is nine |
| `Numerals.SeparatorSkipped` | uint_wide.h:5449-5519 | an apostrophe between characters changes nothing |
| `Numerals.DigitValueExactly` | uint_wide.h:5460-5519 | exactly the digits of the base, letters in either case, are valid, and have their values |
| `Numerals.NumeralDigit` | uint_wide.h:2867-3138 | the k-th character from the end is the digit of base^k, letters in the case asked for |
| `Numerals.NumeralSize` | uint_wide.h:2867-3138 | there is no leading zero and no digit is missing |
| `Numerals.RenderedShape` | uint_wide.h:2867-3138 | where the sign and the prefix stand, when, and in which case |
| `Numerals.DecimalCapacity` | uint_wide.h:3395-3407 | up to 65536 bits every number has at most 8 + 301 W / 1000 decimal digits |
| `Numerals.DigitsFit` | uint_wide.h:3362-3407 | the three buffer sizes hold all digits, base prefix, sign and terminator up to 65536 bits |
| `Text.PutBinaryDigits` | uint_wide.h:2902-2922 | masking and shifting writes exactly the digits of the number in base 8 or 16, backwards into the buffer |
| `Text.TakeDecimalDigit` | uint_wide.h:3000-3014 | the last decimal digit is x % 10 and x / 10 is left |
| `Text.PutDecimalDigits` | uint_wide.h:2998-3015 | repeated division writes exactly the decimal digits |
| `Text.WrString` | uint_wide.h:2861-3138 | succeeds exactly in base 8, 10 and 16 and then gives the rendering of the number |
| `Text.AppendDigit` | uint_wide.h:5452-5508 | appending a digit, by shift and OR or by multiply and add, is x * base + d modulo the width |
| `Text.RdString` | uint_wide.h:5383-5519 | accepts exactly the specified texts and leaves the number they denote, wrapped |
| `Text.PrintAndRead` | uint_wide.h:2861-5519 | reading a printed number back gives the same limbs and the same number |
| `BitChunks.ImportExportHelper` | uint_wide.h:1131-1208 | the bit loop delivers exactly the bits of the input chunks, in order, in chunks of the other size |
| `BitChunks.HighBitsValue` | uint_wide.h:1131-1208 | the bits seen so far are the leading bits of the input read as one number |
| `BitChunks.Delivered` | uint_wide.h:1131-1208 | the output chunks denote the number that the chunks read denote, modulo 2 to the number of bits |
| `BitChunks.ExportBits` | uint_wide.h:7707-7930 | both branches: n chunks in the front of the buffer, in either order, denote the exported number, which is the magnitude unless whole limbs of a negative number are copied; n is what the bits of the magnitude take, and the rest of the buffer is kept |
| `BitChunks.ChunkCountExactly` | uint_wide.h:7707-7930 | the number of chunks is the least that holds the magnitude |
| `BitChunks.OrderedAt` | uint_wide.h:7707-7930 | which chunk stands where in either order |
| `BitChunks.ExportedExactly` | uint_wide.h:7770-7784 | the magnitude comes out if and only if the number is not negative, or the chunks are not whole limbs, or twice the magnitude is B^k for its k significant limbs |
| `BitChunks.ExportedMinusOne` | uint_wide.h:7770-7784 | -1 in whole 32-bit limbs comes out as 2^32 - 1 |
| `BitChunks.CutLimbs` | uint_wide.h:7770-7784 | the k low limbs of a negative number are B^k less its magnitude |
| `BitChunks.ImportBits` | uint_wide.h:7498-7707 | both branches, in either order and for any number of chunks: the number they denote; of more chunks than the type takes the most significant ones, and bits above the chunk size never |
| `BitChunks.ImportedAll` | uint_wide.h:7668-7704 | chunks that fit the type, or exactly as many as cover it, import as the number whose digits they are |
| `BitChunks.ExportThenImport` | uint_wide.h:7498-7930 | importing the exported chunks gives the exported number, for every chunk size, element width and order, and so the magnitude if and only if the export keeps it |
| `BitChunks.ExportThenImportBuffer` | uint_wide.h:7498-7930 | least significant first into a zeroed buffer of exactly the width, the whole buffer is the digit string of the exported number and imports as that number |
| `NumberTheory.Fermat` | uint_wide.h:7131-7144 | Fermat's little theorem, on which the first test of a candidate rests |
| `NumberTheory.SquareRootsOfOne` | uint_wide.h:7171-7212 | modulo a prime only 1 and -1 square to 1, on which a trial rests |
| `NumberTheory.GcdSubtract` | uint_wide.h:6543-6586 | subtracting the smaller number keeps the gcd |
| `NumberTheory.GcdOddPart` | uint_wide.h:6540-6585 | dropping powers of two beside an odd number keeps the gcd |
| `Roots.Msb` | uint_wide.h:6108-6142 | the position of the most significant bit |
| `Roots.StepAbove` | uint_wide.h:6193-6200 | a Newton iterate never falls below the root |
| `Roots.StepDown` | uint_wide.h:6193-6200 | an iterate above the root goes strictly down |
| `Roots.NearStep` | uint_wide.h:6193-6200 | the relative distance to the root squares in every step |
| `Roots.StartingValue` | uint_wide.h:6173-6186 | the starting value is above the root by at most a factor of four |
| `Roots.CapNeverBinds` | uint_wide.h:6193-6200 | quadratic convergence: the cap of 64 iterations is never what ends the loop, at any width up to 2^59 bits |
| `Roots.SqrtStep` | uint_wide.h:6193-6200 | a step in the arithmetic of the type does not overflow and is the Newton step |
| `Roots.Sqrt` | uint_wide.h:6157-6204 | the floor of the square root for every positive number, 0 otherwise |
| `Modular.SquareStep` | uint_wide.h:6452-6467 | the invariant of square-and-multiply, with y unreduced at the start |
| `Modular.DoubleWidth` | uint_wide.h:6423-6464 | products of two W-bit numbers never overflow the double width |
| `Modular.Powm` | uint_wide.h:6417-6473 | b^p mod m for every b, p and m > 0 |
| `Modular.Lsb` | uint_wide.h:6070-6104 | the position of the least significant bit: what remains after the shift is odd |
| `Modular.GcdOddParts` | uint_wide.h:6532-6541 | the gcd is the gcd of the odd parts times the common power of two |
| `Modular.GcdReduce` | uint_wide.h:6553-6585 | a subtract-and-shift step keeps the gcd and makes progress |
| `Modular.GcdUnsafe` | uint_wide.h:491-526 | the binary gcd of built-in integers, zero operands included |
| `Modular.HandOverBoundIs` | uint_wide.h:6558 | the bound of the hand-off after its conversion to the wide type: the greatest double limb above two limbs, else the greatest number when unsigned and -1, so that nothing is handed over, when signed |
| `Modular.PassPositive` | uint_wide.h:6553-6585 | a pass on two positive odd numbers leaves the smaller one and the odd part of the difference |
| `Modular.PassMixed` | uint_wide.h:6553-6585 | a pass on -1 and w leaves -1 and the odd part of w + 1, and -1 twice for the greatest number, whose difference from -1 wraps to the most negative one |
| `Modular.NeverEnds` | uint_wide.h:6543-6587 | in a signed type of at most two limbs the loop never leaves -1 and an odd number below the greatest |
| `Modular.EndsExactly` | uint_wide.h:6543-6587 | for any two operands the loop ends exactly unless the type is signed with at most two limbs and the most negative number meets another one that is neither 0 nor the greatest in size |
| `Modular.ReduceOdd` | uint_wide.h:6543-6587 | the loop: the gcd of two positive odd numbers; for -1 and w the gcd of the number that reaches the hand-off and of the two limbs of -1, and -1 for the greatest number |
| `Modular.GcdMagnitude` | uint_wide.h:6512-6590 | the branches and the common power of two: on stored operands the mathematical gcd, or its stand-in beside the most negative number |
| `Modular.GcdSigned` | uint_wide.h:6493-6597 | for all numbers of the type on which the loop ends: the gcd, negative exactly when the signs differ, if and only if the most negative number is absent, or meets 0 or itself, or meets a number other than the greatest whose odd part reaches the hand-off coprime to B * B - 1 |
| `Modular.TopAndThree` | uint_wide.h:6493-6597 | the most negative number and 3, whose gcd is 1: the unsigned result is 3 above two limbs, and below the loop does not end |
| `MillerRabin.BinarySearch` | uint_wide.h:311-353 | finds exactly the members of a sorted table |
| `MillerRabin.TableIsExact` | uint_wide.h:7016-7040 | up to 227 the table of small primes holds exactly the odd primes |
| `MillerRabin.ScreenProducts` | uint_wide.h:7046-7115 | the five screening constants are the products of the primes up to 227 |
| `MillerRabin.ExactScreen` | uint_wide.h:7046-7115 | in a type that holds the constant a screen lets pass exactly what is coprime to it |
| `MillerRabin.PrimeIsStrong` | uint_wide.h:7171-7212 | a prime passes the trial for every base |
| `MillerRabin.Trial` | uint_wide.h:7171-7212 | the loop of squarings decides whether n is a strong probable prime to the base |
| `MillerRabin.MillerRabin` | uint_wide.h:6971-7216 | up to 227 the answer is primality.  Above, over powers alone: accepted means odd, past the screens, 228^(n-1) = 1, and for every base b^(n-1) = 1 and b^q = 1 or some b^(q 2^j) = -1, modulo n; so no base divides an accepted number, and with all bases from 2 to n - 2, in a type that holds the screening constants, the answer is primality |
| `MillerRabin.StrongOverPowers` | uint_wide.h:7171-7212 | the trial on residues is that statement about powers, Fermat's congruence included |
| `MillerRabin.DivisorRejects` | uint_wide.h:7131-7212 | a base that divides n never passes, so that every composite odd number is rejected by some base from 2 to n - 2 |
| `MillerRabin.ScreenRemainder` | uint_wide.h:7046-7115 | reducing by the modulus of a screen is the remainder of the type by the constant as the type reads it |
| `MillerRabin.MagnitudeOrSmallest` | uint_wide.h:6986-7007 | the stored magnitude is the magnitude, but for the most negative number, which is its own negation, even, and rejected as it should be |
| `MillerRabin.PrimeAccepted` | uint_wide.h:6971-7216 | a prime is accepted if and only if it passes the screening divisions, whatever the bases |
| `MillerRabin.NoPrimeRejected` | uint_wide.h:6971-7216 | in every type that holds the screening constants no prime is ever rejected |
| `MillerRabin.AcceptedHasNoSmallFactor` | uint_wide.h:7046-7115 | an accepted number has no prime factor up to 227 |
| `MillerRabin.NarrowTypeRejectsPrime` | uint_wide.h:7050-7052 | in an unsigned 16-bit type the prime 6197 is rejected, because the constant does not fit |
| `PagedMemory.ReadBytes` | seven_core/src/memory.cpp:122-190 | each byte that a read delivers is the byte at its address |
| `PagedMemory.ReadStops` | seven_core/src/memory.cpp:141-189 | a short read stops at the start of the first page that forbids it |
| `PagedMemory.ReadComplete` | seven_core/src/memory.cpp:122-190 | a read is complete exactly when every touched page is mapped and permits it |
| `PagedMemory.PermissionBits` | seven_core/src/memory.cpp:503-516 | for all permission masks: a fetch asks for bit 4, a data read for any of the three bits, a write for bit 2 |
| `PagedMemory.WriteBytes` | seven_core/src/memory.cpp:230-280 | a write changes exactly the bytes in front of the first page that forbids it, to the bytes given |
| `PagedMemory.WritePermissions` | seven_core/src/memory.cpp:230-280 | a write changes neither the set of mapped pages nor permissions |
| `PagedMemory.WriteThenRead` | seven_core/src/memory.cpp:122-280 | what a permitted write stored a read of the same range returns |
| `PagedMemory.WriteCode` | seven_core/src/memory.cpp:230-280 | a write keeps all executable bytes exactly when it stores no different byte on an executable page before it stops |
| `PagedMemory.StaleExactlyWhenTorn` | seven_core/src/memory.cpp:230-280 | executable bytes change without the code epoch moving exactly when the write is torn |
| `PagedMemory.TornWriteExists` | seven_core/src/memory.cpp:230-280 | a two-byte write over the end of a writable code page into an unmapped page is torn |
| `PagedMemory.MapAt` | seven_core/src/memory.cpp:37-53 | exactly the pages from first to last are mapped with the permissions; mapped ones keep their bytes, new ones are zero |
| `PagedMemory.UnmapAt` | seven_core/src/memory.cpp:55-64 | exactly the pages from first to last are gone |
| `PagedMemory.ReprotectAt` | seven_core/src/memory.cpp:66-80 | exactly the mapped pages from first to last change permissions and keep their bytes |
| `PagedMemory.MeetsExactly` | seven_core/src/memory.cpp:46-47 | the pages that a range meets are those of its bytes; an empty range inside a page meets that page |
| `PagedMemory.RangeOperations` | seven_core/src/memory.cpp:37-80 | by base and size: each of the three acts on exactly the pages that the range meets, partial first and last ones included, and leaves every other page as it is |
| `PagedMemory.RangeBytes` | seven_core/src/memory.cpp:37-80 | byte by byte: every byte of a mapped range is mapped with the permissions and holds what it held, or zero; none of an unmapped range is mapped; those of a reprotected range keep their values |
| `PagedMemory.UnmapMap` | seven_core/src/memory.cpp:37-64 | unmapping what was just mapped leaves what unmapping alone leaves |
| `PagedMemory.RestoreSnapshot` | seven_core/src/memory.cpp:400-418 | restoring a snapshot gives back the memory it was taken of |
| `GuestMemory.Memory.LookupPage` | seven_core/src/memory.cpp:9-25 | through the TLB, with hits, misses and remembered absences, the answer is that of the page table |
| `GuestMemory.Memory.InvalidateTlb` | seven_core/include/seven/memory.hpp:166-178 | after the epoch moves no slot is current |
| `GuestMemory.Memory.Map` | seven_core/src/memory.cpp:37-53 | every page that the bytes from base on meet is mapped with the permissions, its bytes kept or zero, and no other page changes; the TLB stays right and the code epoch moves |
| `GuestMemory.Memory.Unmap` | seven_core/src/memory.cpp:55-64 | no page that the range meets is mapped any more, and no other page changes; the TLB stays right and the code epoch moves |
| `GuestMemory.Memory.Reprotect` | seven_core/src/memory.cpp:66-80 | every mapped page that the range meets has the permissions and its bytes, and no other page changes; the TLB stays right although it is not flushed, and the code epoch moves |
| `GuestMemory.Memory.Read` | seven_core/src/memory.cpp:122-190 | fast and page-by-page paths deliver the same bytes; a fetch succeeds exactly when every page it touches is mapped with bit 4, a data read with any of bits 1, 2 and 4 |
| `GuestMemory.Memory.ReadCodePage` | seven_core/src/memory.cpp:217-228 | succeeds exactly for an aligned page that is mapped with bit 4, and then gives its bytes |
| `GuestMemory.Memory.Write` | seven_core/src/memory.cpp:230-280 | fast and page-by-page paths have the specified effect, succeed exactly when every page they touch is mapped with bit 2, and move the code epoch exactly when a successful write touched an executable page |
| `GuestMemory.Memory.IsMapped` | seven_core/src/memory.cpp:82-96 | true exactly when every byte of the range is mapped |
| `GuestMemory.Memory.SnapshotPages` | seven_core/src/memory.cpp:400-408 | a sorted list that holds every page exactly once |
| `GuestMemory.Memory.RestorePages` | seven_core/src/memory.cpp:410-418 | memory becomes what the list says, its first entry winning for a repeated page |
| `MappedRegions.MatchesExactly` | seven_core/src/memory.cpp:487-501 | the test of the lookup in wrapping 64-bit arithmetic is containment whenever both or neither of access and region wrap, and what it is otherwise |
| `MappedRegions.WrappedMatch` | seven_core/src/memory.cpp:487-501 | an access over the top of the address space matches a region at the bottom that does not contain it |
| `MappedRegions.MmioRegions.MapMmio` | seven_core/src/memory.cpp:360-371 | appends the region and keeps the bounds exact, wrapped ends included |
| `MappedRegions.MmioRegions.UnmapMmio` | seven_core/src/memory.cpp:373-392 | removes exactly the first region with the id and recomputes exact bounds; false exactly when there is none |
| `MappedRegions.MmioRegions.FindMmioRegion` | seven_core/src/memory.cpp:487-501 | the bounds shortcut never changes the answer: the first region that the access matches |
| `InstructionExecutor.SameFetch` | seven_core/src/executor.cpp:542-579 | memories that hold the same code in the pages of a fetch fetch the same |
| `InstructionExecutor.StaysCoherent` | seven_core/src/executor.cpp:532-625 | caches stay right under any change of memory that moves the epoch or keeps the code of the pages fetched from in it |
| `InstructionExecutor.RuleBrokenExactlyWhenTorn` | seven_core/src/executor.cpp:532-540 | among all memory operations only a torn write breaks that rule |
| `InstructionExecutor.SeenBrokenExactlyWhenHarmed` | seven_core/src/executor.cpp:532-540 | the same for the pages fetched from in this epoch: only a torn write that changes code in one of them breaks the rule |
| `InstructionExecutor.FetchAfter` | seven_core/src/executor.cpp:569-579 | what a fetch gives after a write, byte by byte from what it gave before and what was stored |
| `InstructionExecutor.RightExactlyWhenNoneHit` | seven_core/src/executor.cpp:532-567 | after a write that leaves the epoch alone both caches are right if and only if no entry of the epoch is hit: no code page in which a different byte was stored, no instruction whose bytes changed so that they decode otherwise |
| `InstructionExecutor.RightAfter` | seven_core/src/executor.cpp:532-625 | after any memory operation the caches are right exactly when it did not hit an entry with the epoch unmoved, which only a torn write over code fetched from in this epoch can do |
| `InstructionExecutor.StaleRun` | seven_core/src/executor.cpp:532-625 | map, step, torn write, step: the second step on the real caches executes the instruction that is no longer there, with another outcome than a machine without caches |
| `InstructionExecutor.StaleRunWithoutCaches` | seven_core/src/executor.cpp:509-870 | what the same four events do without caches: the second step sees the byte that the failed write stored |
| `InstructionExecutor.Executor.FetchFromPage` | seven_core/src/executor.cpp:547-567 | the bytes from the code-page cache are those of a permission-checked fetch |
| `InstructionExecutor.Executor.FetchDecode` | seven_core/src/executor.cpp:532-625 | hit or miss, while the caches are right the instruction or fault is that of a fresh fetch and decode; a hit is answered from the cache, and what was decoded is a hit the next time |
| `InstructionExecutor.Executor.ApplyOp` | seven_core/src/memory.cpp:37-418 | both caches are right after any memory operation if and only if it hits no entry with the epoch unmoved; so always unless it is a torn write over code fetched from since the epoch moved |
| `InstructionExecutor.Executor.Step` | seven_core/src/executor.cpp:509-870 | up to eight attempts, with hooks that change memory and rip between them; while the caches are right, and no hook tears a write over code fetched from, it ends as on a machine without caches |
| `InstructionExecutor.ExecutedIsCode` | seven_core/src/executor.cpp:532-625 | whatever the hooks do, a step executes only what the decoder makes of fifteen bytes that all lie in mapped pages with permission bit 4 at that time |
| `InstructionExecutor.StoppedAttempt` | seven_core/src/executor.cpp:569-640 | an attempt that is not recovered ends in a page fault exactly when one of the fifteen bytes lies in a page not mapped or without bit 4, else in a decode fault when they do not decode, else as the handler ends |
| `InstructionExecutor.RecoveredAttempt` | seven_core/src/executor.cpp:473-530 | after a recovered fault the step executes the instruction at the instruction pointer that the hooks left, or at the start, as they asked |
| `InstructionExecutor.EightFaults` | seven_core/src/executor.cpp:509-870 | a step whose attempts all fault and are recovered gives up after the eighth |
| `InstructionExecutor.Executor.RunEvents` | seven_core/src/executor.cpp:473-870 | every interleaving of memory operations and steps has the outcomes and final memory of a machine without caches, as long as no torn write changes code in a page fetched from since the epoch last moved |
| `Cpu.MergedFits` | seven_core/src/handler_helpers.cpp:508-534 | the written part reads back as the value, in a 64-bit register; 8- and 16-bit writes keep every bit outside the part, a 32-bit write leaves nothing else |
| `Cpu.MergedKeeps` | seven_core/src/handler_helpers.cpp:508-534 | writing AL keeps AH and the reverse |
| `Cpu.CpuState.WriteRegister` | seven_core/src/handler_helpers.cpp:443-535 | the whole register by bit ranges: the part is the value, the rest is kept at 8 and 16 bits and cleared at 32; every other register and every disjoint part keeps its value |
| `Cpu.AddFlagsMeaning` | seven_core/src/handler_helpers.cpp:609-630 | at every width and either carry-in: CF is unsigned overflow, AF the nibble carry, OF signed overflow, ZF, SF and PF those of the result |
| `Cpu.SubFlagsMeaning` | seven_core/src/handler_helpers.cpp:632-655 | the same for subtraction with either borrow-in, the wrapping subtrahend included |
| `Cpu.CmpxchgAgrees` | seven_core/src/handlers/cmpxchg.cpp:23-38 | the second definition of subtraction flags agrees with the first on every flag |
| `Cpu.ParityMeaning` | seven_core/include/seven/types.hpp:279-283 | the folded table look-up says whether the low byte has an even number of ones |
| `Cpu.SignFlag` | seven_core/include/seven/types.hpp:285-297 | the sign bit is the sign of the sign-extended value |
| `Bits.Pext` | seven_core/src/handlers/bmi.cpp:36-49 | the loop packs the bits of the source at the ones of the mask |
| `Bits.Pdep` | seven_core/src/handlers/bmi.cpp:51-64 | the loop spreads the low bits of the source over the ones of the mask |
| `Bits.DepositExtract` | seven_core/src/handlers/bmi.cpp:36-64 | pdep(pext(x, m), m) is x and m, for every mask and width |
| `Bits.ExtractDeposit` | seven_core/src/handlers/bmi.cpp:36-64 | pext(pdep(x, m), m) is x modulo 2 to the number of ones of m |
| `Bits.ExtractedBit` | seven_core/src/handlers/bmi.cpp:36-49 | bit i of the source, at a one of the mask, comes to the place that counts the ones below it |
| `Bits.DepositedBit` | seven_core/src/handlers/bmi.cpp:51-64 | bit i of the deposit is set exactly when the mask has a one there and the bit of the source that counts the ones below it is set |
| `Bits.OrDisjoint` | uint_wide.h:5290-5379 | OR of a multiple of 2^s and something below 2^s is their sum |
| `Bits.SumBit` | seven_core/src/handler_helpers.cpp:624 | a bit of a sum is the two bits and the carry into them modulo two, on which the adjust flag rests |
| `ArithmeticHandlers.DivisionMeaning` | seven_core/src/handlers/idiv.cpp:7-88 | whenever no fault is raised: dividend = q d + r, r smaller than d with the dividend's sign, and both readable from the registers without loss |
| `ArithmeticHandlers.FaultsExactly` | seven_core/src/handlers/idiv.cpp:7-88 | and only then: any quotient and remainder that satisfy this are the ones left, and the fault is exactly that the quotient does not fit |
| `ArithmeticHandlers.HandleDivRm8` | seven_core/src/handlers/div.cpp:7-22 | DIV and IDIV of the low 16 bits of register 0 by a byte: faults exactly for divisor 0 or a quotient that does not fit, and then changes nothing; else the lowest byte is the quotient, the second the remainder, and the rest of the register is kept |
| `ArithmeticHandlers.HandleDivNarrow` | seven_core/src/handlers/idiv.cpp:24-66 | the same at 16 and 32 bits: register 2 above register 0 is divided, the quotient comes into register 0 and the remainder into register 2, the smallest dividend by -1 included; the rest of both registers is kept at 16 bits and cleared at 32 |
| `ArithmeticHandlers.Divide128` | seven_core/src/handlers/idiv.cpp:68-88 | the 128-bit division on the wide integers gives the mathematical quotient and remainder and detects exactly when the quotient fits |
| `ArithmeticHandlers.Fits64` | seven_core/src/handlers/idiv.cpp:68-88 | the range test on the wrapped 128-bit quotient is the range test on the true one, although INT128_MIN / -1 wraps |
| `ArithmeticHandlers.HandleDivRm64` | seven_core/src/handlers/div.cpp:60-78 | DIV and IDIV at 64 bits: fault exactly when the divisor is 0 or the quotient does not fit; else register 0 gets the quotient and register 2 the remainder |
| `ArithmeticHandlers.ProductParts` | seven_core/src/handlers/mul.cpp:50-68 | low and high half together denote the product, and the overflow test is exactly that the product does not fit in the low half |
| `ArithmeticHandlers.HandleMulRm8` | seven_core/src/handlers/mul.cpp:5-18 | MUL and IMUL by a byte: the low 16 bits of register 0 denote the product, CF and OF say whether it fits in the lowest byte |
| `ArithmeticHandlers.HandleMulNarrow` | seven_core/src/handlers/imul.cpp:116-146 | the same at 16 and 32 bits, the low half in register 0 and the high half in register 2; the rest of both registers is kept at 16 bits and cleared at 32 |
| `ArithmeticHandlers.Multiply128` | seven_core/src/handlers/imul.cpp:148-164 | the 128-bit product on the wide integers, its halves and the overflow test |
| `ArithmeticHandlers.HandleMulRm64` | seven_core/src/handlers/mul.cpp:50-68 | the same at 64 bits, the low half in register 0 and the high half in register 2 |
| `ArithmeticHandlers.HandleImulRegister` | seven_core/src/handlers/imul.cpp:14-99 | the two- and three-operand forms: the wrapped product, with CF and OF set exactly when it does not fit, SF and PF those of the destination, ZF and AF cleared; no other register changes |

## Left out

- MillerRabin.MillerRabin: the random engine is replaced by an arbitrary list of bases in range.
- BitChunks.ImportBits: the import into the signed type is not followed by a reading of its sign; what is stated is the representation.
- BitChunks.ExportBits: the buffer has room for the chunks of the full width and is not the number's own storage.
- Text.WrString: field width, fill character and widths above 65536 bits are not modelled.
- GuestMemory.Memory.Read: passthrough callbacks, access and fault hooks, MMIO and the partly filled destination of a failed read beyond its delivered prefix are not modelled; the size is at least 1 and the address range does not wrap 2^64, because the two paths differ for size 0.
- GuestMemory.Memory.Write: the same; hooks and MMIO callbacks only enter as the choice between the fast and the page-by-page path.
- GuestMemory.Memory.InvalidateTlb: epochs are unbounded integers; their wrap-around after 2^64 changes is not modelled.
- InstructionExecutor.Executor.Step: the decoder is an arbitrary function of mode, rip and 15 bytes. What an executed instruction does to memory and registers enters a run as the events that follow it. Debug breakpoints, trap, instruction and stop hooks, statistics, tracing and rip values within 15 bytes of 2^64 are not modelled.
- InstructionExecutor.Executor.RunEvents: `run`, which repeats steps until one stops, is covered as a sequence of step events; its counters and stop requests are not modelled.
- ArithmeticHandlers.HandleDivRm64: operand decoding and address computation enter as an operand that is a value or unreadable; the flags that a division leaves as they were are not modelled.
- Roots.Sqrt: the number is an integer of W bits whose every step is checked to fit the type; the limb loops below it are those of the class. Powm, gcd, lsb, msb and Miller-Rabin are modelled in the same way.
- WideInteger.UintWide.ShiftLeftAssign: the truncation of counts of 2^32 and more in the test against the width is not modelled.
- WideInteger.UintWide.ShiftRightAssign: the same.
- Compile-time variants that the repository does not switch on (leading-zero shortcuts, the 8 by 8 unrolled kernel, 64-bit limbs), `rootk`, `cbrt`, floating-point conversion, iostream operators, allocators and random engines.
- Copying a `Memory`, unchecked reads and writes, and access hooks.
- BEXTR, rotates, MULX and the other one-line bit helpers, x87 and SIMD instructions, the decoder, and handlers that only move data: they would add easy members only.
- The Windows bridges, the command-line example and the other plumbing around the core.
