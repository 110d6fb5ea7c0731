# Verified model of the multy-core wallet's arithmetic, codecs and transactions

This project models, in Dafny, the parts of the wallet library on which its money depends, and proves what they compute.
`dafny verify dfyconfig.toml` checks everything. The code that works in place on arrays and records is modelled by
methods on arrays and classes; each is proved against a mathematical meaning, and the meanings are related to each other
by lemmas.

**mini-gmp.** Every `BigInt` is a sign and an array of 64-bit limbs. The model goes bottom up: `Words`, `Reciprocal`,
`WordDivision` and `Inverse` (double-word products and division by a precomputed reciprocal, all arithmetic modulo
2^64); `Limbs` and `Mpn` (loops over limb arrays, where operands may overlap as far as the source allows); `MpnDiv` and
`Schoolbook` (long division); `Mpz`, `MpzDiv`, `MpzShift` and `MpzDivUi` (signed numbers as objects whose storage may be
reallocated and whose results may be operands); `MpzSetBit` (single bits); `GcdExt` and `RootRem` on such objects;
`Numerals`, `BaseOut`, `BaseDivide`, `BaseIn`, `Strings` (text in bases 2 to 36, character by character); `Bitwise`,
`MpzBits` (two's complement on sign and magnitude); `ImportExport` (byte strings in every layout). `Arith`, `Powers` and
`Bits` hold the arithmetic these need.

**Keccak.** `KeccakF` states sections 3.2 and 3.4 of FIPS 202 bit by bit, and again by what the mappings do to rows and
columns, `KeccakInPlace` is the in-place permutation, `KeccakBytes` its byte view, and `Sponge` the hash function on
buffers, which permutes its state in place. `SpongeBits` states sections 4 and 5.1 on bit strings and relates the byte
form to them; `Sha3` has the functions of section 6.

**Base58.** `Base58` states the codec with its checksum, `Radix` holds what its two buffers share, and `Base58Codec` is
the pair of conversion loops with their buffer bounds, and the two functions around them.

**Bitcoin.** `BitcoinStream` has the two streams, `BitcoinModel` the wire form, the signed form and the balanced
transaction as values, `FeeFixpoint` the loop that settles the fee, and `BitcoinTransaction` the objects. `BitcoinWire`
is a reader of the wire form, by which the bytes are told apart. The signing primitive is an unknown function with
results of at most 72 bytes.

**Ethereum.** `Rlp` has the encoding of Appendix B of the Yellow Paper with a decoder, and `EthereumTransaction` the
streams and the transaction.

**AES-CBC.** `Cbc` has chaining (section 6.2 of SP 800-38A) and padding (section 6.3 of RFC 5652) over any block cipher,
`AesCbc` the function on buffers.

**BIP-32.** `Bip32` has derivation, neutering and serialisation of extended keys as values over any HMAC, hash and curve
that obeys the group law; `ExtKey` has the records filled in place. `Wrappers` declares an optional value.

## Findings

Where the code and what is said of it differ, the model follows the code.

- `write_int` changes the form of its header at 128 bytes instead of 56. `Rlp.WrittenDecodes` says which integers are
  read back, `Rlp.SmallestIllHeaded` names the first that is not (256^55); amounts of 256 bits are far below it.
- `wally_aes_cbc` accepts flags that name neither operation. It then decrypts all blocks but the last and still reports
  a length that may count part of that one (`AesCbc.NeededIsLength`); in `AesCbc.NothingWritten` 15 bytes are reported
  and none is written. On decryption it looks at one byte of padding only; `Cbc.CiphertextOfPlaintext` says when that
  was enough.
- The final test of `mpn_invert_3by2` uses `>` where the algorithm it implements needs `>=`. Equality cannot occur
  there: it would make the divisor a power of two, whose low word is zero (`Inverse.NotADivisor`).
- `BitcoinTransaction::update` serialises the transaction to measure it, and stops at an amount of 2^64 or more: exactly
  when a destination other than the change has one, or when that much is left for the change at first. The first source
  is left with its two scripts exchanged, the others without the script that unlocks, and the change with zero or with
  what was left for it (`BitcoinTransaction.BitcoinTransaction.Update`). `BitcoinModel.LargeTxIsTooBig` passes all
  checks and stops there; transactions whose inputs are worth less than 2^64 never do
  (`BitcoinModel.SpendableIsNotTooBig`).
- Where the private derivation succeeds, a hardened step never commutes with neutering (`Bip32.NeuterCommutes`).
- `key_strip_private_key` clears the private key and leaves the version of a private key. Deriving and then stripping
  therefore gives another record than stripping and then deriving, which differs in its version and in nothing else, for
  every unhardened path that is not empty and does not fail (`Bip32.StripCommutes`; `Bip32.StripDiffers` is an
  instance).

## Model

| member | source | states |
|---|---|---|
| `Words.UmulPpmm` | third-party/mini-gmp/mini-gmp.c:114-137 | the two result words are the exact double-word product, although the middle sum wraps |
| `Words.WrapsModuloB` | third-party/mini-gmp/mini-gmp.c:97-112 | the sums and differences of words, as compared and wrapped here, are those modulo 2^64 |
| `Reciprocal.InverseIsFloor` | third-party/mini-gmp/mini-gmp.c:731-734 | a word that passes for a reciprocal is the rounded-down quotient of the double or triple power of the base, less the base |
| `Reciprocal.Candidate3by2` | third-party/mini-gmp/mini-gmp.c:139-183 | the quotient digit estimated from the 3/2 reciprocal is right or off by one, on either side, and which is told by the wrapped remainder |
| `Reciprocal.Candidate2by1` | third-party/mini-gmp/mini-gmp.c:139-157 | the same for division of two words by one |
| `WordDivision.UdivQrnndPreinv` | third-party/mini-gmp/mini-gmp.c:139-157 | exact quotient and remainder of two words by a normalised word, with every intermediate result modulo 2^64 |
| `WordDivision.UdivQr3by2` | third-party/mini-gmp/mini-gmp.c:159-183 | exact quotient digit and two-word remainder of three words by a normalised pair |
| `Inverse.LowExact` | third-party/mini-gmp/mini-gmp.c:785-810 | after both half-word digits and their corrections the word is the reciprocal of the high limb |
| `Inverse.FinalAdjust` | third-party/mini-gmp/mini-gmp.c:829-835 | the last comparison, with its asymmetric test of the low words, corrects the digit exactly |
| `Inverse.NotADivisor` | third-party/mini-gmp/mini-gmp.c:831-835 | why that test is harmless: equality there would make the divisor a divisor of a power of two |
| `Inverse.Invert3by2` | third-party/mini-gmp/mini-gmp.c:735-839 | for every normalised u1 and every u0 the exact 3/2 reciprocal |
| `Inverse.InvertLimb` | third-party/mini-gmp/mini-gmp.h:117 | for every normalised u1 the exact 2/1 reciprocal |
| `Limbs.LowInjective` | third-party/mini-gmp/mini-gmp.c:355-364 | numbers of equally many limbs are equal only limb by limb |
| `Mpn.Cmp` | third-party/mini-gmp/mini-gmp.c:355-364 | the sign of the difference of the numbers |
| `Mpn.Cmp4` | third-party/mini-gmp/mini-gmp.c:366-373 | the same for different lengths, when both top limbs are nonzero |
| `Mpn.NormalizedSize` | third-party/mini-gmp/mini-gmp.c:375-381 | drops exactly the zero limbs at the top and keeps the number |
| `Mpn.AddN` | third-party/mini-gmp/mini-gmp.c:415-432 | sum and carry make up the sum of the numbers, in place or on overlapping runs |
| `Mpn.Add` | third-party/mini-gmp/mini-gmp.c:434-445 | the same when one number is longer |
| `Mpn.SubN` | third-party/mini-gmp/mini-gmp.c:468-484 | difference and borrow make up the difference of the numbers |
| `Mpn.Sub` | third-party/mini-gmp/mini-gmp.c:486-497 | the same when one number is longer |
| `Mpn.Mul1` | third-party/mini-gmp/mini-gmp.c:499-520 | product by one limb with its high limb returned |
| `Mpn.AddMul1` | third-party/mini-gmp/mini-gmp.c:522-546 | adds a multiple; the carry limb is what does not fit |
| `Mpn.SubMul1` | third-party/mini-gmp/mini-gmp.c:548-572 | subtracts a multiple; the borrow limb may be any limb |
| `Mpn.Mul` | third-party/mini-gmp/mini-gmp.c:574-595 | schoolbook multiplication is the product of the numbers for operands of any length |
| `Mpn.LShift` | third-party/mini-gmp/mini-gmp.c:609-637 | shifted number and bits shifted out make up the scaled number; also downwards in place |
| `Mpn.RShift` | third-party/mini-gmp/mini-gmp.c:639-664 | the number is the shifted one scaled back plus the bits shifted out |
| `MpnDiv.DivQr1Invert` | third-party/mini-gmp/mini-gmp.c:851-861 | shift, shifted divisor and reciprocal belong to the divisor |
| `MpnDiv.DivQr2Invert` | third-party/mini-gmp/mini-gmp.c:863-880 | the same for a two-limb divisor |
| `MpnDiv.DivQr1Preinv` | third-party/mini-gmp/mini-gmp.c:915-946 | exact quotient and remainder by one limb, after undoing the shift |
| `MpnDiv.DivQr2Preinv` | third-party/mini-gmp/mini-gmp.c:978-1027 | exact quotient and remainder by two limbs, after undoing the shift |
| `Schoolbook.TrialDigit` | third-party/mini-gmp/mini-gmp.c:1078-1095 | subtracting the estimated multiple leaves the remainder between minus and plus the divisor, and the borrow tells its sign |
| `Schoolbook.MaxDigit` | third-party/mini-gmp/mini-gmp.c:1072-1077 | when the top limbs agree the digit is the largest one, and no correction is needed |
| `Schoolbook.AddBack` | third-party/mini-gmp/mini-gmp.c:1090-1094 | adding the divisor back repairs the remainder in limbs exactly when the estimate was one too large |
| `Schoolbook.DivStep` | third-party/mini-gmp/mini-gmp.c:1068-1100 | one quotient digit: window = digit * divisor + new window, and the new window is below the divisor |
| `Schoolbook.DivQrPi1` | third-party/mini-gmp/mini-gmp.c:1042-1103 | normalised long division for more than two divisor limbs: N = Q*D + R and R < D |
| `Schoolbook.DivQrInvert` | third-party/mini-gmp/mini-gmp.c:882-911 | the reciprocal made for a divisor of any length fits it |
| `Schoolbook.DivQrPreinv` | third-party/mini-gmp/mini-gmp.c:1105-1137 | division of any lengths with a ready reciprocal, shifting the dividend and unshifting the remainder |
| `Schoolbook.DivQr` | third-party/mini-gmp/mini-gmp.c:1139-1158 | N = Q*D + R with 0 <= R < D for operands of any length |
| `Mpz.SizeOrder` | third-party/mini-gmp/mini-gmp.c:1810-1822 | because top limbs are nonzero, a larger signed size means a larger number |
| `Mpz.Mpz.Cmp` | third-party/mini-gmp/mini-gmp.c:1810-1822 | orders by integer value |
| `Mpz.Mpz.Add` | third-party/mini-gmp/mini-gmp.c:1989-2000 | the integer sum with a nonzero top limb, also when the result is an operand |
| `Mpz.Mpz.Sub` | third-party/mini-gmp/mini-gmp.c:2002-2013 | the integer difference, under the same aliasing |
| `Mpz.Mpz.AddUi` | third-party/mini-gmp/mini-gmp.c:1915-1922 | sum with a word |
| `Mpz.Mpz.SubUi` | third-party/mini-gmp/mini-gmp.c:1924-1931 | difference with a word |
| `Mpz.Mpz.CmpAbsUi` | third-party/mini-gmp/mini-gmp.c:1824-1831 | the sign of the difference of the magnitude and a word |
| `Mpz.Mpz.Mul` | third-party/mini-gmp/mini-gmp.c:2054-2090 | the integer product with a nonzero top limb |
| `Mpz.Mpz.MulUi` | third-party/mini-gmp/mini-gmp.c:2029-2052 | the product with a word, in place or not, with a nonzero top limb |
| `MpzDiv.DivisionUnique` | third-party/mini-gmp/mini-gmp.c:2170-2173 | a rounding mode leaves only one quotient and remainder |
| `MpzDiv.ModesAre` | third-party/mini-gmp/mini-gmp.c:2170-2173 | what the modes mean for a positive divisor: the exact quotient rounded down, up, or towards zero |
| `MpzDiv.SignsChange` | third-party/mini-gmp/mini-gmp.c:2170-2173 | and for a negative one: changing both signs changes that of the remainder |
| `MpzDiv.RoundFromTrunc` | third-party/mini-gmp/mini-gmp.c:2254-2267 | how the truncated quotient and remainder are corrected for floor and ceiling |
| `MpzDiv.DivQr` | third-party/mini-gmp/mini-gmp.c:2171-2281 | quotient and remainder in all three modes, either of them wanted or not, results aliasing operands; fails only for divisor zero |
| `MpzShift.LowestBit` | third-party/mini-gmp/mini-gmp.c:91-96 | x & -x keeps the lowest set bit of a word and nothing else |
| `MpzShift.Scan` | third-party/mini-gmp/mini-gmp.c:666-684 | the lowest set bit of a number of any length, across zero limbs |
| `MpzShift.Mul2exp` | third-party/mini-gmp/mini-gmp.c:2092-2124 | the number times 2^bits, in place or not, with a nonzero top limb |
| `MpzShift.CutAt` | third-party/mini-gmp/mini-gmp.c:2360-2370 | quotient and remainder by 2^bits from the limb that holds the bit, for a number of any length |
| `MpzShift.DivQ2exp` | third-party/mini-gmp/mini-gmp.c:2343-2395 | the quotient of a signed number by 2^bits in all three rounding modes, in place or not |
| `MpzShift.TdivQ2exp` | third-party/mini-gmp/mini-gmp.c:2479-2483 | the same rounded towards zero |
| `MpzShift.MakeOdd` | third-party/mini-gmp/mini-gmp.c:2745-2756 | the odd part of a positive number, with the number of twos taken out |
| `MpzSetBit.BitOfNegative` | third-party/mini-gmp/mini-gmp.c:3476-3486 | a bit of a negative number is that of its magnitude exactly when all bits below it are zero, and turned over otherwise |
| `MpzSetBit.TstBit` | third-party/mini-gmp/mini-gmp.c:3495-3526 | a bit of a number of either sign in two's complement, also beyond its limbs |
| `MpzSetBit.AbsAddBit` | third-party/mini-gmp/mini-gmp.c:3528-3567 | the magnitude grows by 2^bit, above its limbs or with a carry into a new one |
| `MpzSetBit.AbsSubBit` | third-party/mini-gmp/mini-gmp.c:3569-3588 | the magnitude shrinks by 2^bit, normalised; there is no borrow |
| `MpzSetBit.AddedBit` | third-party/mini-gmp/mini-gmp.c:3488-3493 | where a bit is clear, adding its weight sets it and leaves all others |
| `MpzSetBit.SetBit` | third-party/mini-gmp/mini-gmp.c:3590-3600 | of the infinitely many bits of a number of either sign, this one is set and no other changed |
| `MpzDivUi.OnlyBit` | third-party/mini-gmp/mini-gmp.c:953-954 | d & (d - 1) is zero for powers of two only |
| `Bitwise.LowMask` | third-party/mini-gmp/mini-gmp.c:956 | masking with a power of two less one is the remainder by that power |
| `MpzDivUi.DivQr1` | third-party/mini-gmp/mini-gmp.c:948-976 | exact quotient and remainder by a word, also through the shortcut for powers of two |
| `MpzDivUi.DivQrUi` | third-party/mini-gmp/mini-gmp.c:2533-2585 | division of a signed number by a word in all three modes, results wanted or not and aliasing the operand |
| `GcdExt.GcdUnique` | third-party/mini-gmp/mini-gmp.c:2821-3001 | the greatest common divisor is unique |
| `GcdExt.CombinationIsGcd` | third-party/mini-gmp/mini-gmp.c:2821-3001 | a common divisor that is a combination is the greatest |
| `GcdExt.StepV` | third-party/mini-gmp/mini-gmp.c:2922-2936 | a step that reduces tv keeps 2^p*tu = s1*U - t1*V and 2^p*tv = -s0*U + t0*V |
| `GcdExt.StepU` | third-party/mini-gmp/mini-gmp.c:2937-2946 | so does a step that reduces tu |
| `GcdExt.SubtractLoop` | third-party/mini-gmp/mini-gmp.c:2915-2949 | on six mpz variables, the loop ends with the numbers that subtracting and taking out twos leads to |
| `GcdExt.MetRunning` | third-party/mini-gmp/mini-gmp.c:2876-2949 | and those still satisfy all four relations with the operands when tu and tv meet |
| `GcdExt.LoopedFinds` | third-party/mini-gmp/mini-gmp.c:2898-2949 | so tv then divides both operands, and the cofactors are right but for a factor 2^power |
| `GcdExt.BothEven` | third-party/mini-gmp/mini-gmp.c:2965-2975 | a halving always finds both cofactors even, at once or after one adjustment |
| `GcdExt.HalveAllFinds` | third-party/mini-gmp/mini-gmp.c:2965-2975 | so halving as often as twos were taken out removes the factor 2^power and no more |
| `GcdExt.Reduced` | third-party/mini-gmp/mini-gmp.c:2977-2983 | the cofactors are brought down to half of the reduced operands |
| `GcdExt.FinalFinds` | third-party/mini-gmp/mini-gmp.c:2951-2987 | all steps together give a divisor of both operands that is their combination, for signed operands with any powers of two |
| `GcdExt.Gcdext` | third-party/mini-gmp/mini-gmp.c:2821-3001 | ends with g = gcd(u,v) = s*u + t*v for all signed u and v, and small cofactors; either cofactor wanted or not, results aliasing operands |
| `GcdExt.NotCoprimeToZero` | third-party/mini-gmp/mini-gmp.c:3045-3046 | why the early refusal of zero loses nothing for |m| > 1 |
| `GcdExt.Invert` | third-party/mini-gmp/mini-gmp.c:3039-3069 | succeeds exactly when |m| > 1 and gcd(u,m) = 1, and then 0 < r < |m| and r*u = 1 modulo |m|; otherwise r is left alone |
| `RootRem.PowUi` | third-party/mini-gmp/mini-gmp.c:3074-3093 | binary powering over the bits of the exponent is the power, also into the base |
| `RootRem.StartAbove` | third-party/mini-gmp/mini-gmp.c:3237 | the starting point lies above the root |
| `RootRem.NewtonAbove` | third-party/mini-gmp/mini-gmp.c:3239-3260 | no iterate falls below the root (the arithmetic-geometric inequality on integers) |
| `RootRem.NewtonDecreases` | third-party/mini-gmp/mini-gmp.c:3239-3260 | an iterate above the root makes a strictly smaller one |
| `RootRem.NewtonStep` | third-party/mini-gmp/mini-gmp.c:3239-3260 | so the first iterate that does not shrink is the root, for negative operands too |
| `RootRem.RootUnique` | third-party/mini-gmp/mini-gmp.c:3214-3273 | the truncated root is unique |
| `RootRem.RootRem` | third-party/mini-gmp/mini-gmp.c:3215-3273 | |x|^z <= |y| < (|x|+1)^z with the sign of y, and r = y - x^z, each wanted or not and aliasing y or not; the two error cases exactly |
| `Numerals.NumeralUnique` | third-party/mini-gmp/mini-gmp.c:1187-1326 | digits without leading zeros are determined by their number |
| `Numerals.DigitCount` | third-party/mini-gmp/mini-gmp.c:4005-4056 | how many digits a number between two powers of the base has |
| `BaseOut.GetBaseInfo` | third-party/mini-gmp/mini-gmp.c:1187-1200 | the largest power of the base that fits a limb, with its exponent |
| `BaseOut.LimbBits` | third-party/mini-gmp/mini-gmp.c:1202-1210 | the bit count of a limb |
| `BaseOut.DigitsForBits` | third-party/mini-gmp/mini-gmp.c:1220-1221 | rounding the bit count up to digits gives the digit count |
| `BaseOut.GetStrBits` | third-party/mini-gmp/mini-gmp.c:1212-1239 | digits by walking the bits, across limb boundaries, are the numeral |
| `BaseDivide.LimbGetStr` | third-party/mini-gmp/mini-gmp.c:1243-1262 | the digits of one limb, least significant first |
| `BaseDivide.NextTop` | third-party/mini-gmp/mini-gmp.c:1286-1287 | dropping at most one limb after each division keeps the top limb nonzero |
| `BaseDivide.GetStrOther` | third-party/mini-gmp/mini-gmp.c:1264-1306 | digits by dividing off chunks, padded and turned round in place, are the numeral |
| `BaseIn.SetStrBits` | third-party/mini-gmp/mini-gmp.c:1328-1357 | shifting digits together, across limb boundaries, gives their number |
| `BaseIn.SetStrOther` | third-party/mini-gmp/mini-gmp.c:1361-1397 | multiplying chunk by chunk gives their number; the limb count never exceeds the estimate |
| `Strings.ParseText` | third-party/mini-gmp/mini-gmp.c:4058-4225 | what is printed in a base from 2 to 36 is parsed back, for every integer and either case |
| `Strings.ParseDecimalText` | third-party/mini-gmp/mini-gmp.c:4141-4160 | decimal text is also parsed back with the base left to the prefix |
| `Strings.TextInjective` | third-party/mini-gmp/mini-gmp.c:4058-4121 | different integers are printed differently |
| `Strings.TextIs` | third-party/mini-gmp/mini-gmp.c:4066-4121 | a minus for negative numbers, and for digit d the byte 48 + d, or 87 + d or 55 + d from ten on, for small or capital letters |
| `Strings.TextOfDigit` | third-party/mini-gmp/mini-gmp.c:4068-4074 | all 36 digits in both cases |
| `Strings.ParseIs` | third-party/mini-gmp/mini-gmp.c:4171-4193 | in every base such bytes are read as those digits, letters of either case |
| `Strings.ParseDecimal` | third-party/mini-gmp/mini-gmp.c:4171-4193 | bytes 48 to 57 are the decimal number of the digits s[i] - 48 |
| `Strings.ParseCharacter` | third-party/mini-gmp/mini-gmp.c:4171-4184 | what each of the 256 characters means by itself in base 36 |
| `Strings.ParseSigned` | third-party/mini-gmp/mini-gmp.c:4138-4139 | a minus in front negates |
| `Strings.ParsePrefixed` | third-party/mini-gmp/mini-gmp.c:4141-4160 | with the base left open: 0x and 0X, 0b and 0B, another zero in front, and none |
| `Strings.ParseSpaced` | third-party/mini-gmp/mini-gmp.c:4135-4172 | the six space characters do not matter, wherever they are |
| `Strings.NotParsed` | third-party/mini-gmp/mini-gmp.c:4180-4192 | any other character that is no digit of the base makes the text refused |
| `Strings.OutputBaseIs` | third-party/mini-gmp/mini-gmp.c:4066-4080 | negative bases ask for capital letters, and -1, 0 and 1 for decimal text |
| `Strings.SizeInBase` | third-party/mini-gmp/mini-gmp.c:4005-4056 | exactly the digit count, in every base |
| `Strings.GetStr` | third-party/mini-gmp/mini-gmp.c:4058-4121 | writes the text and its terminator and nothing after it, within the room asked for; refuses bases above 36 |
| `Strings.SetStr` | third-party/mini-gmp/mini-gmp.c:4123-4225 | accepts exactly the texts of the grammar and sets their value, or zero |
| `Strings.GetValue` | multy_core/src/api/big_int_impl.cpp:141-149 | two bytes more than the digit count always suffice for the decimal text |
| `Bitwise.BitwiseBits` | third-party/mini-gmp/mini-gmp.c:3630-3842 | every bit of the specified result is the operation on the operands' bits, infinitely sign-extended |
| `Bitwise.BitsDetermine` | third-party/mini-gmp/mini-gmp.c:3630-3842 | the bits of an integer determine it, negative or not |
| `MpzBits.TwosComplement` | third-party/mini-gmp/mini-gmp.c:3672-3676 | complementing limb by limb with a carry writes a negative number in two's complement |
| `MpzBits.CommonLimbs` | third-party/mini-gmp/mini-gmp.c:3669-3682 | the limbs both operands have: three conversions at once, carry by carry |
| `MpzBits.HighLimbs` | third-party/mini-gmp/mini-gmp.c:3685-3693 | the limbs only the longer operand has, combined with the other's sign |
| `MpzBits.AndInto` | third-party/mini-gmp/mini-gmp.c:3630-3700 | bitwise and of the integers, for all signs and lengths, normalised, in place or not |
| `MpzBits.IorInto` | third-party/mini-gmp/mini-gmp.c:3702-3773 | bitwise or, likewise |
| `MpzBits.XorInto` | third-party/mini-gmp/mini-gmp.c:3775-3842 | bitwise exclusive or, likewise |
| `ImportExport.NextWord` | third-party/mini-gmp/mini-gmp.c:4283-4305 | the pointer walk arrives where the layout puts the next word |
| `ImportExport.AddressInjective` | third-party/mini-gmp/mini-gmp.c:4325-4412 | no two bytes share a place in any layout |
| `ImportExport.Import` | third-party/mini-gmp/mini-gmp.c:4257-4323 | the number that the bytes mean in the given layout, normalised; zero for words of no bytes |
| `ImportExport.Export` | third-party/mini-gmp/mini-gmp.c:4325-4412 | as few words as will do, whose bytes mean |x| in the given layout |
| `ImportExport.ExportThenImport` | third-party/mini-gmp/mini-gmp.c:4257-4412 | exporting and importing again gives |x| for every order, endianness and word size |
| `ImportExport.GetExportedSize` | multy_core/src/api/big_int_impl.cpp:188-201 | exactly the byte count of |x|, and 1 for zero |
| `ImportExport.ShortestForm` | multy_core/src/api/big_int_impl.cpp:203-218 | a byte string of that size has no leading zero byte (save for zero itself) |
| `ImportExport.ExportAsBinaryData` | multy_core/src/api/big_int_impl.cpp:203-218 | the shortest byte string of |x| in either byte order |
| `ImportExport.SetValueAsBinaryData` | multy_core/src/api/big_int_impl.cpp:220-226 | the number a byte string of any length means |
| `KeccakInPlace.ThetaInPlace` | third-party/keccak-tiny/keccak-tiny.c:56-63 | theta of section 3.2.1 of FIPS 202, with column sums kept in five words |
| `KeccakF.ThetaAt` | third-party/keccak-tiny/keccak-tiny.c:56-63 | that is, a bit changes with the parity of the two columns beside it |
| `KeccakInPlace.FollowsWalk` | third-party/keccak-tiny/keccak-tiny.c:21-30 | the table of lanes visits them in the order of the walk that defines rho (section 3.2.2) |
| `KeccakInPlace.RhoPiLane` | third-party/keccak-tiny/keccak-tiny.c:64-70 | each step of the lane walk puts into a lane what rho and pi put there |
| `KeccakInPlace.RhoPiInPlace` | third-party/keccak-tiny/keccak-tiny.c:64-70 | the 24-step walk with one saved lane is rho followed by pi (sections 3.2.2 and 3.2.3) |
| `KeccakF.PiMoves` | third-party/keccak-tiny/keccak-tiny.c:64-70 | where pi moves lane (x, y): to (y, 2x + 3y) |
| `KeccakInPlace.ChiInPlace` | third-party/keccak-tiny/keccak-tiny.c:71-77 | chi of section 3.2.4, row by row through a copy |
| `KeccakF.ChiOfRow` | third-party/keccak-tiny/keccak-tiny.c:71-77 | what chi makes of each of the 32 rows |
| `KeccakInPlace.RoundConstantBits` | third-party/keccak-tiny/keccak-tiny.c:31-37 | the 24 constants are those the shift register of algorithm 5 produces |
| `KeccakF.RoundsAre` | third-party/keccak-tiny/keccak-tiny.c:49-81 | 24 rounds, each the five mappings in their order |
| `KeccakInPlace.Keccakf` | third-party/keccak-tiny/keccak-tiny.c:49-81 | 24 rounds in place are Keccak-f[1600] on every state (section 3.4) |
| `KeccakBytes.LanesOfBytes` | third-party/keccak-tiny/keccak-tiny.c:49-50 | the byte view and the lane view of a state determine each other |
| `KeccakBytes.BytesOfLanes` | third-party/keccak-tiny/keccak-tiny.c:49-50 | and back |
| `KeccakBytes.P` | third-party/keccak-tiny/keccak-tiny.c:106-107 | the permutation on the 200-byte view |
| `Sponge.PaddingInjective` | third-party/keccak-tiny/keccak-tiny.c:128-132 | padded messages differ when messages or suffixes do |
| `Sponge.LastBlockBytes` | third-party/keccak-tiny/keccak-tiny.c:128-132 | suffix and final bit, in different bytes or in the same one, complete the byte form of the padding |
| `SpongeBits.PaddingBits` | third-party/keccak-tiny/keccak-tiny.c:128-132 | the bits of which are the suffix and the 10*1 padding of section 5.1, for every length, also when both ends of it share a byte |
| `SpongeBits.PadIs` | third-party/keccak-tiny/keccak-tiny.c:128-132 | pad10*1 is the shortest string of a one, zeros and a one that fills the last block |
| `Sponge.AbsorbBlocks` | third-party/keccak-tiny/keccak-tiny.c:109-116 | absorbing whole blocks leaves the same sponge still to run |
| `Sponge.SqueezeBlocks` | third-party/keccak-tiny/keccak-tiny.c:136-137 | block by block and then a part: the first outlen bytes squeezed, nothing after them touched |
| `Sponge.HashInto` | third-party/keccak-tiny/keccak-tiny.c:119-140 | for inputs and outputs of every length the byte form of the sponge, by permuting one state in place; -1 exactly for the rejected arguments, which write nothing |
| `SpongeBits.HashIsSponge` | third-party/keccak-tiny/keccak-tiny.c:119-140 | whose bits are SPONGE[f, pad10*1, r] of section 4 for the bits of the message and its suffix |
| `SpongeBits.PermuteLifts` | third-party/keccak-tiny/keccak-tiny.c:106-107 | the permutation of bytes is Keccak-p[1600, 24] of bit strings (section 3.1) |
| `SpongeBits.SqueezePrefix` | third-party/keccak-tiny/keccak-tiny.c:136-137 | a shorter output is the beginning of a longer one |
| `Sha3.Delimiters` | third-party/keccak-tiny/keccak-tiny.c:143-164 | the numbers 0x06, 0x1f and 0x01 are the suffixes 01, 1111 and none with the first bit of the padding |
| `Sha3.Sha3` | third-party/keccak-tiny/keccak-tiny.c:148-155 | the beginning of KECCAK[2b](M || 01, b), refused exactly beyond b bits or for a missing buffer (section 6.1) |
| `Sha3.Shake` | third-party/keccak-tiny/keccak-tiny.c:143-147 | KECCAK[2b](M || 1111, d) for every length d (section 6.2) |
| `Sha3.Keccak` | third-party/keccak-tiny/keccak-tiny.c:157-164 | the same as SHA3 without a suffix |
| `Base58.DecodeEncoded` | third-party/libwally-core/src/base58.c:65-248 | decoding undoes encoding on all non-empty byte strings |
| `Base58.EncodeDecoded` | third-party/libwally-core/src/base58.c:65-248 | encoding undoes decoding on all decodable strings |
| `Base58.DecodableStrings` | third-party/libwally-core/src/base58.c:78-79 | exactly the non-empty strings over the alphabet decode |
| `Base58.CheckedExactly` | third-party/libwally-core/src/base58.c:256-290 | a string passes the checksum for some bytes exactly when it is their encoding with the checksum |
| `Base58.Alphabet` | third-party/libwally-core/src/base58.c:12-63 | the two tables are inverse to each other |
| `Base58.AlphabetIs` | third-party/libwally-core/src/base58.c:12-63 | they hold the letters and digits without 0, I, O and l, in increasing order |
| `Base58.EncodedIs` | third-party/libwally-core/src/base58.c:152-248 | an encoding has the number of the bytes, and as many '1' in front as they have zeros |
| `Base58Codec.WordsSuffice` | third-party/libwally-core/src/base58.c:93-95 | 58^n fits the words reserved at 6 bits a digit |
| `Base58Codec.BytesSuffice` | third-party/libwally-core/src/base58.c:202 | 256^n fits the n*138/100+1 digits reserved |
| `Base58Codec.AddDigit` | third-party/libwally-core/src/base58.c:115-123 | the number becomes 58 times itself plus the digit; top_word never leaves the buffer |
| `Base58Codec.ToWords` | third-party/libwally-core/src/base58.c:107-124 | the words hold the number of the digits, or an invalid character was met |
| `Base58Codec.Decode` | third-party/libwally-core/src/base58.c:69-150 | result, length and buffer contents for every string and buffer; too short a buffer is left alone |
| `Base58Codec.AddByte` | third-party/libwally-core/src/base58.c:215-222 | the number becomes 256 times itself plus the byte; top_byte never leaves the buffer |
| `Base58Codec.ToDigits` | third-party/libwally-core/src/base58.c:211-226 | the digits denote the number of the bytes |
| `Base58Codec.FromBytes` | third-party/libwally-core/src/base58.c:164-248 | the encoding, with or without a checksum, and its terminator; fails exactly on the empty string and unknown flags |
| `Base58Codec.ToBytes` | third-party/libwally-core/src/base58.c:256-290 | status, reported length and every byte of the buffer, for all strings and flags; wiped when the checksum is wrong |
| `BitcoinStream.Stream.WriteData` | multy_core/src/bitcoin/bitcoin_stream.cpp:37-60 | collecting and counting streams agree: what is counted is what would be collected |
| `BitcoinStream.LittleEndianReads` | multy_core/src/bitcoin/bitcoin_stream.cpp:102-135 | the bytes written for x read, least significant first, as x modulo 256^n, for negative x too |
| `BitcoinStream.Stream.WriteCompactSize` | multy_core/src/bitcoin/bitcoin_stream.cpp:62-83 | the four forms of a compact size |
| `BitcoinWire.SizeRead` | multy_core/src/bitcoin/bitcoin_stream.cpp:62-83 | a reader finds the length, by the marker byte, and the form has 1, 3, 5 or 9 bytes as the length has |
| `FeeFixpoint.SettledStep` | multy_core/src/bitcoin/bitcoin_transaction.cpp:319-329 | after a shortage the loop goes on only if the size grew, and it is bounded; so it ends |
| `FeeFixpoint.SettledPays` | multy_core/src/bitcoin/bitcoin_transaction.cpp:313-329 | where the loop ends the fee pays for every byte |
| `FeeFixpoint.FinalPays` | multy_core/src/bitcoin/bitcoin_transaction.cpp:311-335 | the final change is zero, or no dust and then the fee pays |
| `FeeFixpoint.SettledAt` | multy_core/src/bitcoin/bitcoin_transaction.cpp:313-329 | and is the price of no more bytes than a size that was measured |
| `FeeFixpoint.FinalAt` | multy_core/src/bitcoin/bitcoin_transaction.cpp:311-335 | the final change is what that price leaves, and it is dropped only when that is dust |
| `BitcoinModel.SizeWithin` | multy_core/src/bitcoin/bitcoin_transaction.cpp:347-353 | a bound on the signed size that does not depend on the change |
| `BitcoinModel.Conservation` | multy_core/src/bitcoin/bitcoin_transaction_base.cpp:236-251 | inputs = written outputs + fee |
| `BitcoinModel.FinalChangePays` | multy_core/src/bitcoin/bitcoin_transaction.cpp:292-336 | the same of the change in the transaction itself |
| `BitcoinModel.SettledChangeAt` | multy_core/src/bitcoin/bitcoin_transaction.cpp:292-336 | the change is what the price of n bytes leaves, for a size n that was measured and is no less than the final one; 0 only if that is below 546 |
| `BitcoinModel.BalancedLeaves` | multy_core/src/bitcoin/bitcoin_transaction.cpp:292-336 | nothing but the change differs, and the fee is the price of n bytes, or at most 545 more when there is no change |
| `BitcoinModel.FeeBounded` | multy_core/src/bitcoin/bitcoin_transaction.cpp:292-336 | with a change destination the fee is at most 545 above the price of the bound on the size |
| `BitcoinModel.ChangePaysFee` | multy_core/src/bitcoin/bitcoin_transaction.cpp:338-344 | a change that was kept makes both final checks pass |
| `BitcoinModel.VerifiedExactly` | multy_core/src/bitcoin/bitcoin_transaction.cpp:205-255 | what passes the checks: sources, destinations, funds, keys that fit, and on the main net no payment below 546 |
| `BitcoinModel.OutcomeExactly` | multy_core/src/bitcoin/bitcoin_transaction.cpp:338-344 | and what passes at the end: a fee for every byte signed, and something to pay |
| `BitcoinModel.SequencedIs` | multy_core/src/bitcoin/bitcoin_transaction.cpp:262-275 | of a source only the sequence number changes |
| `BitcoinTransaction.BitcoinTransaction.SequenceNumberIs` | multy_core/src/bitcoin/bitcoin_transaction.cpp:262-275 | 0xfffffffd for a transaction that can be replaced (BIP-125), 0xffffffff otherwise |
| `BitcoinModel.UpdatedConserves` | multy_core/src/bitcoin/bitcoin_transaction.cpp:258-345 | on success inputs = outputs + fee, fee >= price * size, and a change is 0 or at least 546 |
| `BitcoinModel.BalancedAgain` | multy_core/src/bitcoin/bitcoin_transaction.cpp:258-345 | balancing a balanced transaction changes nothing |
| `BitcoinModel.VerifiedAgain` | multy_core/src/bitcoin/bitcoin_transaction.cpp:258-260 | and it still passes the checks at the start |
| `BitcoinModel.TooBigAgain` | multy_core/src/bitcoin/bitcoin_transaction.cpp:292-336 | taking the old change out first, a second balancing meets an amount beyond 64 bits exactly when the first did |
| `BitcoinModel.SettledForGood` | multy_core/src/bitcoin/bitcoin_transaction.cpp:258-345 | so a second update finds everything as it should be, for every transaction that was updated |
| `BitcoinModel.TooBigWithChange` | multy_core/src/bitcoin/bitcoin_transaction.cpp:292-329 | the sizes can be measured, change included, exactly when no payment and no first change is beyond 64 bits |
| `BitcoinModel.SpendableIsNotTooBig` | multy_core/src/bitcoin/bitcoin_transaction.cpp:258-345 | inputs worth less than 2^64 that cover what is paid never stop an update |
| `BitcoinModel.LargeTxIsTooBig` | multy_core/src/bitcoin/bitcoin_transaction.cpp:258-345 | a transaction with hashes, keys and scripts of the lengths accepted, which passes all checks and is stopped by an amount beyond 64 bits |
| `BitcoinTransaction.WriteInput` | multy_core/src/bitcoin/bitcoin_transaction.cpp:91-107 | the wire form of an input |
| `BitcoinTransaction.WriteOutput` | multy_core/src/bitcoin/bitcoin_stream.cpp:176-185 | the wire form of an output; fails exactly on an amount beyond 64 bits |
| `BitcoinWire.InputRead` | multy_core/src/bitcoin/bitcoin_transaction.cpp:91-107 | a reader finds hash (back to front), index, script and sequence number of a written input |
| `BitcoinWire.OutputRead` | multy_core/src/bitcoin/bitcoin_stream.cpp:176-185 | and amount and script of an output |
| `BitcoinWire.AllPicked` | multy_core/src/bitcoin/bitcoin_transaction.cpp:159-177 | the message comes first, then the destinations in their order |
| `BitcoinWire.NotPicked` | multy_core/src/bitcoin/bitcoin_transaction.cpp:159-177 | without those that have no positive amount, but for a change that is wanted |
| `BitcoinWire.TxRead` | multy_core/src/bitcoin/bitcoin_transaction.cpp:132-152 | a reader finds version, all inputs, all outputs and lock time, and what follows them |
| `BitcoinWire.SignedRead` | multy_core/src/bitcoin/bitcoin_transaction.cpp:121-152 | in the signed bytes those of the transaction, place by place |
| `BitcoinWire.PreimageRead` | multy_core/src/bitcoin/bitcoin_transaction.cpp:376-408 | in what is signed the same, with one script, and 1 in four bytes behind |
| `BitcoinWire.ScriptForRead` | multy_core/src/bitcoin/bitcoin_transaction.cpp:389-403 | in the script that unlocks: the signature of that with a byte 1, and the public key |
| `BitcoinTransaction.BitcoinTransaction.NonZeroDestinations` | multy_core/src/bitcoin/bitcoin_transaction.cpp:159-177 | the message and the destinations with positive amounts, or with the change besides |
| `BitcoinTransaction.BitcoinTransaction.SerializeTo` | multy_core/src/bitcoin/bitcoin_transaction.cpp:132-152 | the wire form of a transaction; fails exactly on an amount beyond 64 bits |
| `BitcoinTransaction.BitcoinTransaction.SignInput` | multy_core/src/bitcoin/bitcoin_transaction.cpp:376-408 | what is signed is the transaction with only this input's script filled in, and the scripts are put back |
| `BitcoinTransaction.BitcoinTransaction.Sign` | multy_core/src/bitcoin/bitcoin_transaction.cpp:355-418 | old signatures do not matter, every input gets its script, all else is left as it was |
| `BitcoinTransaction.BitcoinTransaction.SerializedSize` | multy_core/src/bitcoin/bitcoin_transaction.cpp:347-353 | the counted size is the length of the signed serialisation |
| `BitcoinTransaction.BitcoinTransaction.CalculateDiff` | multy_core/src/bitcoin/bitcoin_transaction_base.cpp:236-251 | inputs less outputs |
| `BitcoinTransaction.BitcoinTransaction.TotalSpent` | multy_core/src/bitcoin/bitcoin_transaction.cpp:191-203 | inputs less the change |
| `BitcoinTransaction.BitcoinTransaction.Verify` | multy_core/src/bitcoin/bitcoin_transaction.cpp:205-255 | which check fails first, if any |
| `BitcoinTransaction.BitcoinTransaction.SettleFee` | multy_core/src/bitcoin/bitcoin_transaction.cpp:313-329 | the loop ends, at the settled change |
| `BitcoinTransaction.BitcoinTransaction.StepFee` | multy_core/src/bitcoin/bitcoin_transaction.cpp:321-328 | one shortage: the fee pays for the previous size, and only a longer transaction needs more |
| `BitcoinTransaction.BitcoinTransaction.Balance` | multy_core/src/bitcoin/bitcoin_transaction.cpp:292-336 | the change is the settled one: what the price of a measured size leaves, or none when that is below 546; stops exactly when an amount is beyond 64 bits |
| `BitcoinTransaction.BitcoinTransaction.Update` | multy_core/src/bitcoin/bitcoin_transaction.cpp:258-345 | the status and the whole new state of every transaction, also of those that an amount beyond 64 bits stops, which are named exactly; the change is all that the fee of a measured size leaves, and the fee bounded above |
| `BitcoinTransaction.BitcoinTransaction.UpdateTwice` | multy_core/src/bitcoin/bitcoin_transaction.cpp:258-345 | after any successful update another one succeeds and changes nothing |
| `BitcoinTransaction.BitcoinTransaction.Serialize` | multy_core/src/bitcoin/bitcoin_transaction.cpp:121-130 | the bytes are those that were counted, and the fee pays for each of them |
| `Rlp.StringRoundTrip` | multy_core/src/ethereum/ethereum_transaction.cpp:229-258 | a decoder of the Yellow Paper's Appendix B recovers a string and what follows it |
| `Rlp.ListRoundTrip` | multy_core/src/ethereum/ethereum_transaction.cpp:260-284 | and all items of a list |
| `Rlp.ListsInjective` | multy_core/src/ethereum/ethereum_transaction.cpp:260-284 | equal encodings are of equal lists |
| `Rlp.StringForms` | multy_core/src/ethereum/ethereum_transaction.cpp:229-284 | the forms of strings and lists with the header bytes of Appendix B: 128, 183, 192 and 247 and above |
| `Rlp.WrittenDecodes` | multy_core/src/ethereum/ethereum_transaction.cpp:177-207 | a written integer is read back exactly when its header is the standard one: up to 55 bytes, or from 128 up |
| `Rlp.SmallestIllHeaded` | multy_core/src/ethereum/ethereum_transaction.cpp:189-204 | the smallest integer that is not: 256^55 |
| `Rlp.SmallIsWellHeaded` | multy_core/src/ethereum/ethereum_transaction.cpp:189-204 | every integer below it is written as the standard has it |
| `EthereumTransaction.DataStream.WriteInt` | multy_core/src/ethereum/ethereum_transaction.cpp:177-207 | appends the written integer; fails exactly on a negative one |
| `EthereumTransaction.DataStream.WriteString` | multy_core/src/ethereum/ethereum_transaction.cpp:229-258 | appends the encoded string |
| `EthereumTransaction.DataStream.WriteList` | multy_core/src/ethereum/ethereum_transaction.cpp:260-284 | appends the encoded list |
| `EthereumTransaction.TransactionDecodes` | multy_core/src/ethereum/ethereum_transaction.cpp:355-384 | a decoder recovers nonce, gas price, gas limit, address, amount and payload of a serialised transaction in this order, and then chain or signature |
| `EthereumTransaction.SerialisationInjective` | multy_core/src/ethereum/ethereum_transaction.cpp:355-384 | equal serialisations mean equal fields, and the same chain or the same signature |
| `EthereumTransaction.EthereumTransaction.SerializeTo` | multy_core/src/ethereum/ethereum_transaction.cpp:355-384 | the encoded list, in which a decoder finds the fields in the order of the Yellow Paper; fails exactly when a field is negative |
| `EthereumTransaction.EthereumTransaction.Update` | multy_core/src/ethereum/ethereum_transaction.cpp:397-433 | which check fails first; the fee is set before the last of them |
| `EthereumTransaction.EthereumTransaction.Sign` | multy_core/src/ethereum/ethereum_transaction.cpp:435-444 | signs the serialisation without signature; takes only 65 bytes |
| `EthereumTransaction.EthereumTransaction.TailsAre` | multy_core/src/ethereum/ethereum_transaction.cpp:372-382 | v is the recovery id + 35 + 2 * chain (EIP-155), r and s are the halves; without a signature the chain is there when there is one |
| `EthereumTransaction.EthereumTransaction.Serialize` | multy_core/src/ethereum/ethereum_transaction.cpp:344-353 | the list in which a decoder finds the fields and the signature of those fields, of a transaction its source can pay |
| `EthereumTransaction.EthereumTransaction.UpdateThenTotalSpent` | multy_core/src/ethereum/ethereum_transaction.cpp:386-433 | what is spent after an update is more than the source has exactly when the update lacked funds, and covered after a successful one |
| `Cbc.DecryptedBlock` | third-party/libwally-core/src/aes.c:157-162 | a plaintext block depends on two ciphertext blocks only |
| `Cbc.EncryptedBlock` | third-party/libwally-core/src/aes.c:157-162 | a ciphertext block is the encrypted sum of the plaintext block and the ciphertext block before it |
| `Cbc.XorIsAddition` | third-party/libwally-core/src/aes.c:157-162 | that sum is bitwise: zero is neutral, every block its own inverse, and order and grouping do not matter |
| `Cbc.UnpadPadded` | third-party/libwally-core/src/aes.c:132-138 | what the last byte says is exactly the padding of section 6.3 of RFC 5652 |
| `Cbc.PadUnpadded` | third-party/libwally-core/src/aes.c:132-138 | bytes taken for padding can be put back exactly when they were padding |
| `Cbc.PlaintextOfCiphertext` | third-party/libwally-core/src/aes.c:94-179 | decryption undoes encryption for every length, for any invertible block cipher |
| `Cbc.CiphertextOfPlaintext` | third-party/libwally-core/src/aes.c:94-179 | encryption undoes decryption exactly when the decrypted text is properly padded |
| `AesCbc.PlaintextParts` | third-party/libwally-core/src/aes.c:121-149 | decrypting the last block first and the others later gives the whole plaintext |
| `AesCbc.CiphertextParts` | third-party/libwally-core/src/aes.c:167-174 | the last block encrypted is what is left of the input and its padding |
| `AesCbc.NeededIsLength` | third-party/libwally-core/src/aes.c:115-141 | the reported length is that of the output, and the one exception: no operation named, and text in the last block |
| `AesCbc.OperationsAre` | third-party/libwally-core/src/aes.c:94-179 | flag 1 encrypts and flag 2 decrypts |
| `AesCbc.NothingWritten` | third-party/libwally-core/src/aes.c:112-141 | an input of that kind: 15 bytes are reported and none is written |
| `AesCbc.RoundTrip` | third-party/libwally-core/src/aes.c:94-179 | each operation reports its output's length and decryption restores the text, lengths 0 and multiples of 16 included |
| `AesCbc.EncryptBlocks` | third-party/libwally-core/src/aes.c:151-165 | the chain through the output buffer |
| `AesCbc.DecryptBlocks` | third-party/libwally-core/src/aes.c:151-165 | the chain through the input buffer |
| `AesCbc.Run` | third-party/libwally-core/src/aes.c:94-179 | status, reported length and every byte of the output buffer, for all accepted and rejected arguments |
| `Bip32.TweakCommutes` | third-party/libwally-core/src/bip32.c:435-469 | tweaking a private key tweaks its public key, and one fails exactly when the other does |
| `Bip32.StartsConsistent` | third-party/libwally-core/src/bip32.c:123-167 | a master key and every parsed key has the public key of its private key |
| `Bip32.MasterIs` | third-party/libwally-core/src/bip32.c:123-167 | the master key is the HMAC of the seed under "Bitcoin seed": private key left, chain code right; and exactly when there is one |
| `Bip32.PrivateChildIs` | third-party/libwally-core/src/bip32.c:407-452 | the HMAC of a key and the four bytes of the child's number: the left half is added to the private key, the right half is the chain code; and exactly when there is a child |
| `Bip32.PublicChildIs` | third-party/libwally-core/src/bip32.c:407-469 | of a public key: the point of the left half is added to the parent's; and exactly when there is a child |
| `Bip32.ChildRecordIs` | third-party/libwally-core/src/bip32.c:471-494 | depth, number, version and the parent's hash in a child |
| `Bip32.DataInjective` | third-party/libwally-core/src/bip32.c:410-427 | different children have different inputs of the HMAC |
| `Bip32.DerivedKeeps` | third-party/libwally-core/src/bip32.c:372-497 | so has every derived key; it is one deeper, and private exactly when asked for |
| `Bip32.DerivedPathKeeps` | third-party/libwally-core/src/bip32.c:514-546 | the same along paths, which never exceed depth 255 |
| `Bip32.DerivedPathAppend` | third-party/libwally-core/src/bip32.c:514-546 | a path can be followed in two parts |
| `Bip32.NeuterStep` | third-party/libwally-core/src/bip32.c:372-497 | on a step that is not hardened a private key's child stripped and given the public version, its public child and its neutered self's child are one, or all fail |
| `Bip32.NeuterCommutes` | third-party/libwally-core/src/bip32.c:89-546 | where the private derivation succeeds, deriving and then neutering, that is stripping and giving the public version, is neutering and then deriving exactly along unhardened paths; where it fails, so does the public one |
| `Bip32.StripCommutes` | third-party/libwally-core/src/bip32.c:89-93 | with the stripping of the code, where the private derivation succeeds the public one does exactly along unhardened paths, both agree in all but the version, and in that too exactly for the empty path |
| `Bip32.StripDiffers` | third-party/libwally-core/src/bip32.c:89-93 | a lawful choice of the primitives, a key and a path of one step for which the versions differ |
| `Bip32.HashesDoNotMatter` | third-party/libwally-core/src/bip32.c:488-494 | a key's hashes reach only its child's record of its parent |
| `Bip32.ShortcutIsDerived` | third-party/libwally-core/src/bip32.c:514-546 | skipping the hashes of all but the last two steps does not show in the result or in failures |
| `Bip32.UnserializeSerialized` | third-party/libwally-core/src/bip32.c:232-336 | what is written is read back, all but 16 bytes of the parent's hash and a private key left out |
| `Bip32.LayoutParts` | third-party/libwally-core/src/bip32.c:252-277 | the place of every field in the 78 bytes |
| `Bip32.SerializedExactly` | third-party/libwally-core/src/bip32.c:200-249 | which keys are written at all |
| `Bip32.SerializeUnserialized` | third-party/libwally-core/src/bip32.c:232-336 | what is read is written again byte for byte, exactly when it passes for a valid key |
| `ExtKey.ExtKey.FromSeed` | third-party/libwally-core/src/bip32.c:123-167 | the master key, or what is left of the record on each failure |
| `ExtKey.ExtKey.FromParent` | third-party/libwally-core/src/bip32.c:372-497 | the child, or a wiped record, though the record serves as scratch space |
| `ExtKey.ExtKey.Serialize` | third-party/libwally-core/src/bip32.c:232-277 | the 78 bytes, exactly when the key is valid for them; otherwise the buffer is left alone |
| `ExtKey.ExtKey.Unserialize` | third-party/libwally-core/src/bip32.c:293-336 | the key that the bytes describe, or a wiped record |
| `ExtKey.Walk` | third-party/libwally-core/src/bip32.c:518-539 | two slots in turn never overwrite the key being derived from |
| `ExtKey.ExtKey.FromParentPath` | third-party/libwally-core/src/bip32.c:514-546 | step-by-step derivation with the caller's flags, or failure with the record left as it was |

## Left out

- Mpz.Mpz.Mul: allocation always succeeds, here and everywhere; memory management, hooks and error plumbing are not modelled.
- ImportExport.Import: the nails argument is always zero, as the source demands.
- Strings.SetStr: the text is the characters before the terminator, and bases are 0 and 2 to 36, as the source demands.
- Strings.GetStr: a caller's buffer must have room for the digits, a sign and a terminator, as the source documents.
- Sponge.HashInto: a rate of zero is excluded, for which the source does not end.
- KeccakInPlace.Keccakf: machine words are sequences of 64 bits.
- Base58Codec.ToBytes: with the checksum flag, strings that decode to fewer than four bytes are excluded; the source reads before the buffer there. The checksum is an unknown function of the bytes.
- BitcoinTransaction.BitcoinTransaction.Update: money is unbounded, as in the source, and the price per byte is not negative.
- EthereumTransaction.EthereumTransaction.SerializeTo: lengths are below 2^64. The signature's halves are opaque strings of 32 bytes, because `skip_leading_zeroes` tests a pointer and never skips anything.
- AesCbc.Run: buffers do not overlap, the place for the reported length exists, and without encryption there are at least 16 bytes of input; the source reads before the buffer otherwise.
- ExtKey.ExtKey.FromParent: parent and child are different records, since the source overwrites the child's before it has read the parent's. A missing library context is not modelled.
- Checks of properties by name (`validate_all_properties`) and property maps.
- HMAC, HASH160, the AES block transformation, point arithmetic and signing: functions with stated laws.
- Floating point conversions, modular powers, primality, factorials, plain gcd and lcm of mini-gmp, clearing and counting bits, remainders by 2^bits; the comparison with 64-bit integers.
- SegWit transactions, which update() does not balance; multisig, ERC20 and token transactions; Golos and EOS.
- JSON, codecs by name, facades, the C API, samples and build tools.
