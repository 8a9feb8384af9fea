# Verified models: curve arithmetic, RLP, transaction pool, trie

This project models, in Dafny, the algorithms of this blockchain node that are written by hand on limbs, buffers
and pool state, and proves what their callers rely on. It has four parts.

**secp256k1** (the C library under `crypto/secp256k1/libsecp256k1/src`, in the configuration the Go wrapper selects:
4x64 scalars, 5x52 field elements, endomorphism, built-in inverses, no assembly).

- `Words`, `Primes`, `Accumulator`, `Scalars`, `Products`: 64-bit limbs, the three-word carry accumulator, exact 512-bit
  products, the folding 512 -> 385 -> 258 -> 256 bits, and with them multiplication modulo the group order N.
- `Split`, `Digits`, `Wnaf`, `Group`, `Ecmult`: the split along the endomorphism with its size bound, the windowed
  signed-digit recoding, and the interleaved double multiplication na * A + ng * G built on both.
- `WnafConst`, `EcmultConst`: the fixed-pattern recoding and multiplication, with the side conditions of the addition
  formulae it uses.
- `EcmultGen`: the blinded comb for multiples of the generator, over every re-randomisation of its state.
- `Field`, `FieldNormalize`, `Powers`, `ScalarInverse`, `FieldInverse`: field multiplication and squaring on five
  limbs, normalization, the addition chains for inverses and square roots, inversion of a whole array at once.
- `Coordinates`: from Jacobian to affine coordinates, for one point, for many with one inversion, and for tables.

**RLP** (`utils/rlp`). `RlpCoding` defines the encoding of a tree of byte strings and proves it prefix-free.
`RlpBuffer` and `RlpOutput` are the encoder: string data and list headers in separate places, spliced together on the
way out into a slice, into a writer that may fail, or through a reader with buffers of any size. `RlpStream` and
`RlpDecode` are the decoder with its stack of 64-bit frame sizes; `RlpRaw` splits and counts encoded values.

**Transactions** (`txpool`, `statemachine`, `maker`). `Ledger` executes one transaction on the accounts. `PoolSide` is
what the pool keeps of one sender, pending blocks and a queue, as values; `PoolEffects` states what a new transaction
does to them, and that this leaves nothing open; `TxPool` is the pool with its shared blocks. `BlockMaker` pops and
executes until nothing is left or something fails.

**Trie** (`mpt`). `TrieNodes` is insertion and lookup in the Merkle Patricia trie; `TrieKeys` says which keys are safe
to insert; `Trie` is the map from keys of bytes, over one insertion and over whole runs.

`dafny verify dfyconfig.toml` checks everything.

## How to read the models

- Integers are unbounded in Dafny. Machine words are subset types (`u64`, `u32`, `u128`), so a sum that would overflow
  where the source relies on it not to is a proof obligation; where the source lets a word wrap, the model writes the
  remainder out. A bitwise OR of parts that share no bit is an addition.
- A curve point is its discrete logarithm to the base G: the group is the integers modulo N, G is 1 and infinity is 0.
  "A is not infinity" is asked for as `FullOrder`: some multiple of A is G. For a prime N the two are the same
  (`Group.FullOrderWhenPrime`); that N is prime is not proved here. Where the source's formulae exclude infinity (`secp256k1_gej_double_nonzero`,
  `secp256k1_gej_add_ge`), so do `DoubleNonzero` and `AddGe`, and their callers prove it.
- Inverses are stated as powers. That the power is the inverse is proved from Fermat's congruence for the number at
  hand, which is what primality would give.
- `hide` statements keep definitions away from the solver where a proof does not need them.
- Several decoder methods take a ghost argument `want`. It has no effect on what they do; it states, for a value given
  in advance, that input starting with that value's encoding is accepted.

## Where the code and its documentation disagree

The models follow the code.

- The comment over `secp256k1_wnaf_const` says the number of words is returned
  (crypto/secp256k1/libsecp256k1/src/ecmult_const_impl.h:49). The function returns the skew.
- Field elements may have magnitude up to 2048 by the library's own check
  (crypto/secp256k1/libsecp256k1/src/field_5x52_impl.h:43). At 2048 the first carry pass of the normalization can wrap:
  `FieldNormalize.MagnitudeTooLarge` gives such an element, `FieldNormalize.NormalizeExact` the exact condition, and
  `FieldNormalize.MagnitudeSuffices` the largest magnitude at which it always holds.
- `Execute` computes the cost of a transaction in 64 bits. `Ledger.FeeWrapsAway` is a transaction whose fee wraps to
  nothing; `Ledger.ExecutedTotal` is what holds for every transaction, and `Ledger.Conservation` what follows when
  nothing wraps.
- A new transaction is compared with the last pending nonce plus one, in 64 bits, which wraps behind the greatest
  nonce. `PoolSide.AcceptedOrderedExactly` is the exact condition under which a sender stays in order, and
  `PoolSide.GreatestNonceWraps` a sender that does not.
- A new branch of the trie puts what has one nibble left into its value slot, where a lookup of that key does not
  look (mpt/trie.go:138-140, mpt/trie.go:177-179, mpt/trie.go:191-193). So a key is lost when it leaves an extension or
  a leaf's key at its own last nibble, and so is a leaf's key that is left at its last nibble. `TrieNodes.InsertLaw`
  says what every insertion does to every lookup, `TrieNodes.InsertExact` when it is an update, and `Trie.RunExact`
  when the trie is a map over a whole run. For keys of one length the condition is that no two agree up to the last
  nibble (`Trie.RunOfOneLength`); for others it depends on their order (`Trie.OrderMatters`), and that no two part at a
  last nibble suffices (`Trie.RunApart`). The test inserts "key1" and "key2" and compares root hashes only
  (mpt/mpt_test.go:37-45): by `Trie.LastByteLost` neither key is found afterwards.
- A transaction that fails to execute has already been taken from the pool (maker/blockmaker.go:78-89), as
  `BlockMaker.PackOne` states.

## Model

| member | source | states |
|---|---|---|
| Accumulator.MulAdd | crypto/secp256k1/libsecp256k1/src/scalar_4x64_impl.h:187-199 | The three-word accumulator grows by exactly a * b, and its top word by at most one. |
| Accumulator.MulAddFast | crypto/secp256k1/libsecp256k1/src/scalar_4x64_impl.h:202-213 | The two-word accumulator grows by exactly a * b when that fits. |
| Accumulator.MulAdd2 | crypto/secp256k1/libsecp256k1/src/scalar_4x64_impl.h:216-235 | The accumulator grows by exactly 2 * a * b, both carries of the doubling included. |
| Accumulator.SumAdd | crypto/secp256k1/libsecp256k1/src/scalar_4x64_impl.h:238-244 | The accumulator grows by exactly a. |
| Scalars.Scalar.CheckOverflow | crypto/secp256k1/libsecp256k1/src/scalar_4x64_impl.h:57-67 | The limb-by-limb comparison is 1 exactly when the value is N or more. |
| Scalars.Scalar.Add | crypto/secp256k1/libsecp256k1/src/scalar_4x64_impl.h:83-97 | The sum of two reduced scalars is reduced and is their sum less overflow times N, also when the result shares storage with an operand. |
| Scalars.Scalar.CaddBit | crypto/secp256k1/libsecp256k1/src/scalar_4x64_impl.h:99-115 | Adds flag * 2^bit, for every bit, when the sum fits 256 bits. |
| Scalars.Scalar.Negate | crypto/secp256k1/libsecp256k1/src/scalar_4x64_impl.h:140-150 | The complement-and-add gives the residue that adds up to N, and 0 for 0. |
| Scalars.Scalar.IsHigh | crypto/secp256k1/libsecp256k1/src/scalar_4x64_impl.h:156-166 | 1 exactly when the value exceeds N / 2. |
| Scalars.Scalar.CondNegate | crypto/secp256k1/libsecp256k1/src/scalar_4x64_impl.h:168-182 | Negates modulo N or leaves alone, without branching, and returns the sign. |
| Scalars.Scalar.GetBits | crypto/secp256k1/libsecp256k1/src/scalar_4x64_impl.h:41-44 | The bits asked for, as a quotient and remainder of the whole value. |
| Scalars.Scalar.GetBitsVar | crypto/secp256k1/libsecp256k1/src/scalar_4x64_impl.h:46-55 | The same for bits that may lie across two limbs. |
| Scalars.Scalar.ShrInt | crypto/secp256k1/libsecp256k1/src/scalar_4x64_impl.h:897-907 | Old value is new value times 2^n plus the bits returned, for every n from 1 to 15. |
| Products.Mul512 | crypto/secp256k1/libsecp256k1/src/scalar_4x64_impl.h:712-743 | The eight words hold the exact product of the two values, with no carry lost. |
| Products.Sqr512 | crypto/secp256k1/libsecp256k1/src/scalar_4x64_impl.h:855-880 | The eight words hold the exact square, each cross product entering once, doubled. |
| Products.Fold512 | crypto/secp256k1/libsecp256k1/src/scalar_4x64_impl.h:515-540 | 512 bits come down to 385: the high half enters multiplied by 2^256 - N, with no carry lost. |
| Products.Fold385 | crypto/secp256k1/libsecp256k1/src/scalar_4x64_impl.h:542-561 | 385 bits come down to 258: the part above 2^256 enters multiplied by 2^256 - N, with no carry lost. |
| Products.Fold258 | crypto/secp256k1/libsecp256k1/src/scalar_4x64_impl.h:563-572 | 258 bits come down to 256 and a carry: the two bits above 2^256 enter multiplied by 2^256 - N, with no carry lost. |
| Products.Reduce512 | crypto/secp256k1/libsecp256k1/src/scalar_4x64_impl.h:506-577 | Any 512-bit product is reduced to its residue modulo N, below N; the last overflow is 0 or 1. |
| Products.Mul | crypto/secp256k1/libsecp256k1/src/scalar_4x64_impl.h:891-895 | The product modulo N, below N, with any sharing of storage between result and operands. |
| Products.Sqr | crypto/secp256k1/libsecp256k1/src/scalar_4x64_impl.h:909-913 | The square modulo N, below N. |
| Products.RoundingBit | crypto/secp256k1/libsecp256k1/src/scalar_4x64_impl.h:941-946 | Adding the highest bit shifted out rounds the quotient to the nearest integer, and never overflows. |
| Products.MulShiftVar | crypto/secp256k1/libsecp256k1/src/scalar_4x64_impl.h:932-947 | a * b / 2^shift rounded to the nearest integer, for every shift from 256 to 512. |
| Split.RoundingErrors | crypto/secp256k1/libsecp256k1/src/scalar_impl.h:318-330 | How far the two rounded multiplications by g1 and g2 can be from the exact quotients by N. |
| Split.HalvesAreShort | crypto/secp256k1/libsecp256k1/src/scalar_impl.h:296-332 | Both halves stay below 0.6355 and 0.5407 times 2^128, by the lattice basis and the rounding errors. |
| Split.HalvesRecombine | crypto/secp256k1/libsecp256k1/src/scalar_impl.h:296-332 | The halves recombine to a plus an explicit multiple of N. |
| Split.SplitCorrect | crypto/secp256k1/libsecp256k1/src/scalar_impl.h:334-366 | What the modular arithmetic computes are exactly the two short halves, as signed residues. |
| Split.SplitLambda | crypto/secp256k1/libsecp256k1/src/scalar_impl.h:334-366 | For every scalar, r1 + lambda * r2 is a modulo N and both signed halves are within the bounds. |
| Wnaf.WindowDigit | crypto/secp256k1/libsecp256k1/src/ecmult_impl.h:258-272 | A window read where the bit differs from the carry gives an odd digit within the width, and the next carry is its top bit. |
| Wnaf.RecodedWindow | crypto/secp256k1/libsecp256k1/src/ecmult_impl.h:258-275 | Placing such a digit keeps the value spelled so far and the distance between nonzero digits. |
| Wnaf.EcmultWnaf | crypto/secp256k1/libsecp256k1/src/ecmult_impl.h:235-284 | For every scalar, length and width: the digits are in non-adjacent form and spell the signed value up to an explicit multiple of 2^len, which the final carry decides; what is returned is the place above the highest digit, at most one more than the magnitude has bits. |
| Wnaf.WnafExact | crypto/secp256k1/libsecp256k1/src/ecmult_impl.h:228-284 | For values below 2^(len - 1) in magnitude the final carry is 0 and the digits spell the value exactly. |
| Ecmult.OddMultiplesTable | crypto/secp256k1/libsecp256k1/src/ecmult_impl.h:52-85 | Entry k is (2k + 1) * a. |
| Ecmult.TableGet | crypto/secp256k1/libsecp256k1/src/ecmult_impl.h:134-155 | The entry for an odd digit n is n times the base, negative digits included; the index is in bounds. |
| Ecmult.Context.Build | crypto/secp256k1/libsecp256k1/src/ecmult_impl.h:164-194 | The two tables hold the odd multiples of G and of 2^128 * G; a second build changes nothing. |
| Ecmult.Split128 | crypto/secp256k1/libsecp256k1/src/scalar_4x64_impl.h:916-925 | The halves of a scalar add up to it with weight 2^128. |
| Ecmult.RecodeSplit | crypto/secp256k1/libsecp256k1/src/ecmult_impl.h:312-324 | The 130-digit strings of the two halves of na spell them exactly, because the split bounds leave the last place clear. |
| Ecmult.RecodeHalves | crypto/secp256k1/libsecp256k1/src/ecmult_impl.h:348-353 | The 129-digit strings of the halves of ng spell them exactly. |
| Ecmult.PointTables | crypto/secp256k1/libsecp256k1/src/ecmult_impl.h:341-346 | The tables of a and lambda * a hold their odd multiples, and no entry is infinity. |
| Ecmult.LambdaInvertible | crypto/secp256k1/libsecp256k1/src/ecmult_impl.h:343-346 | Multiplying by lambda takes no point but infinity to infinity. |
| Ecmult.Interleave | crypto/secp256k1/libsecp256k1/src/ecmult_impl.h:367-399 | The shared doubling chain over four strings of different lengths adds up all four values, each over its own base. |
| Ecmult.CombinedResult | crypto/secp256k1/libsecp256k1/src/ecmult_impl.h:286-404 | The sum over the four bases is na * A + ng * G. |
| Group.FullOrderWhenPrime | crypto/secp256k1/libsecp256k1/src/scalar_4x64_impl.h:10-14 | If the order these limbs spell is prime, every point but infinity generates the group, as the contracts ask. |
| Ecmult.Ecmult | crypto/secp256k1/libsecp256k1/src/ecmult_impl.h:286-404 | For all scalars na and ng and every A that is not infinity the result is na * A + ng * G. |
| WnafConst.Skewed | crypto/secp256k1/libsecp256k1/src/ecmult_const_impl.h:79-93 | For every short scalar, minus one included, the skew, the flip and the sign leave an odd value in range that equals the scalar plus the skew up to the sign. |
| WnafConst.Skew | crypto/secp256k1/libsecp256k1/src/ecmult_const_impl.h:79-93 | The in-place steps that produce that value. |
| WnafConst.Borrow | crypto/secp256k1/libsecp256k1/src/ecmult_const_impl.h:102-108 | Making a digit odd by borrowing from the one below keeps their sum, the oddness and the ranges. |
| WnafConst.AllShifted | crypto/secp256k1/libsecp256k1/src/ecmult_const_impl.h:116-117 | After the last word nothing of the scalar is left. |
| WnafConst.WnafConst | crypto/secp256k1/libsecp256k1/src/ecmult_const_impl.h:57-119 | All digits are odd and below 2^w in magnitude, and they spell the signed scalar plus the skew, for every width. |
| EcmultConst.ShortVector | crypto/secp256k1/libsecp256k1/src/ecmult_const_impl.h:180-185 | The lattice of (x, y) with x + lambda * y = 0 modulo N has no nonzero vector with both coordinates within 0.75 * 2^128. |
| EcmultConst.PairNotInfinity | crypto/secp256k1/libsecp256k1/src/ecmult_const_impl.h:180-185 | Short coefficients, not both zero, over a and lambda * a never give infinity. |
| EcmultConst.TailIsShort | crypto/secp256k1/libsecp256k1/src/ecmult_const_impl.h:180-197 | The digits above any position spell an odd number, at most about a sixteenth of the whole above the lowest position. |
| EcmultConst.TableGetConst | crypto/secp256k1/libsecp256k1/src/ecmult_const_impl.h:22-42 | Scanning the whole table and negating conditionally gives the digit times the base, never infinity. |
| EcmultConst.RecodeBoth | crypto/secp256k1/libsecp256k1/src/ecmult_const_impl.h:141-144 | Both halves in 33 odd digits that spell them plus their skews. |
| EcmultConst.DoubleFourTimes | crypto/secp256k1/libsecp256k1/src/ecmult_const_impl.h:183-185 | Sixteen times the running sum; none of the four operands is infinity, as the doubling formula asks. |
| EcmultConst.DigitLoop | crypto/secp256k1/libsecp256k1/src/ecmult_const_impl.h:166-198 | The sum of both strings over a and lambda * a. |
| EcmultConst.Correction | crypto/secp256k1/libsecp256k1/src/ecmult_const_impl.h:202-228 | Minus the skew times a, for both skews, never infinity. |
| EcmultConst.EcmultConst | crypto/secp256k1/libsecp256k1/src/ecmult_const_impl.h:122-237 | For every scalar and every a that is not infinity the result is exactly scalar * a. |
| EcmultGen.OffsetsCancel | crypto/secp256k1/libsecp256k1/src/ecmult_gen.h:20-27 | The 64 offsets of the tables add up to zero. |
| EcmultGen.FillTables | crypto/secp256k1/libsecp256k1/src/ecmult_gen_impl.h:55-80 | Entry i of table j is 16^j * i * G + U_j, for all 1024 entries. |
| EcmultGen.GenContext.Build | crypto/secp256k1/libsecp256k1/src/ecmult_gen_impl.h:21-92 | Every one of the 1024 entries is the one for the offset point passed in, the blinding is the one drawn, and the two are consistent; a second build changes nothing. |
| EcmultGen.CombEnd | crypto/secp256k1/libsecp256k1/src/ecmult_gen_impl.h:124-156 | After all tables the offsets are gone and the blinding cancels. |
| EcmultGen.GenContext.EcmultGen | crypto/secp256k1/libsecp256k1/src/ecmult_gen_impl.h:124-156 | The result is gn * G for every scalar, whatever the blinding; every table addition meets the formula's condition. |
| EcmultGen.GenContext.Blind | crypto/secp256k1/libsecp256k1/src/ecmult_gen_impl.h:159-208 | Re-randomising, seeded or reset, keeps initial = -blind * G, from any consistent state or from a fresh table. |
| Field.ProductByColumns | crypto/secp256k1/libsecp256k1/src/field_5x52_int128_impl.h:32-34 | The product of two values of five limbs is the sum of its nine columns. |
| Field.FoldedIsProduct | crypto/secp256k1/libsecp256k1/src/field_5x52_int128_impl.h:18-153 | Folding nine bounded columns keeps the residue modulo the field prime and leaves limbs of 52 bits and a top limb of at most 49. |
| Field.MultiplicationCorrect | crypto/secp256k1/libsecp256k1/src/field_5x52_int128_impl.h:18-153 | For every pair of elements within the 56 and 52-bit bounds the fold of their columns is congruent to their product. |
| Field.FoldColumns | crypto/secp256k1/libsecp256k1/src/field_5x52_int128_impl.h:36-152 | The fold in 128-bit accumulators, none of which overflows. |
| Field.SquareColumns | crypto/secp256k1/libsecp256k1/src/field_5x52_int128_impl.h:168-260 | The columns of a square from five squares and doubled cross products. |
| Field.Fe.MulInner | crypto/secp256k1/libsecp256k1/src/field_5x52_int128_impl.h:18-153 | The product modulo the prime, within the output bounds, also when the result shares storage with the first operand. |
| Field.Fe.SqrInner | crypto/secp256k1/libsecp256k1/src/field_5x52_int128_impl.h:155-275 | Limb for limb the same result as multiplying the element by itself. |
| Field.Fe.Mul | crypto/secp256k1/libsecp256k1/src/field_5x52_impl.h:373-387 | For operands of magnitude up to 8 the product modulo the prime, of magnitude 1. |
| Field.Fe.Sqr | crypto/secp256k1/libsecp256k1/src/field_5x52_impl.h:389-400 | The square of an element of magnitude up to 8, of magnitude 1. |
| Field.Fe.Negate | crypto/secp256k1/libsecp256k1/src/field_5x52_impl.h:327-342 | The sum with the operand is 0 modulo the prime; no limb underflows; the magnitude is m + 1. |
| FieldNormalize.FirstPassValue | crypto/secp256k1/libsecp256k1/src/field_5x52_impl.h:57-69 | The first carry pass takes a multiple of the prime off, and whatever its wrapping sums lose. |
| FieldNormalize.LostIsShort | crypto/secp256k1/libsecp256k1/src/field_5x52_impl.h:61-66 | What they lose is below the prime, and nothing exactly when no sum leaves 64 bits. |
| FieldNormalize.FinalReduction | crypto/secp256k1/libsecp256k1/src/field_5x52_impl.h:75-87 | Adding 2^256 - P once and dropping bit 256 leaves the unique limbs below the prime. |
| FieldNormalize.Normalize | crypto/secp256k1/libsecp256k1/src/field_5x52_impl.h:54-95 | The result is the unique limbs of the residue, of the value less what was lost. |
| FieldNormalize.NormalizeVar | crypto/secp256k1/libsecp256k1/src/field_5x52_impl.h:121-163 | The branching form gives the same. |
| FieldNormalize.NormalizeWeak | crypto/secp256k1/libsecp256k1/src/field_5x52_impl.h:97-119 | The residue is kept, of the value less what was lost, at magnitude 1. |
| FieldNormalize.CanonicalUnique | crypto/secp256k1/libsecp256k1/src/field_5x52_impl.h:54-95 | Reduced limbs of equal value are equal, so both forms agree limb for limb. |
| FieldNormalize.ZeroOrP | crypto/secp256k1/libsecp256k1/src/field_5x52_impl.h:168-185 | After one pass a residue is 0 exactly for the two raw values 0 and P. |
| FieldNormalize.NormalizesToZero | crypto/secp256k1/libsecp256k1/src/field_5x52_impl.h:165-186 | True exactly when the residue is 0, of the value less what was lost. |
| FieldNormalize.NormalizesToZeroVar | crypto/secp256k1/libsecp256k1/src/field_5x52_impl.h:188-227 | The early-exit form gives the same. |
| FieldNormalize.NormalizeExact | crypto/secp256k1/libsecp256k1/src/field_5x52_impl.h:54-95 | Normalization gives the residue of the element if and only if no sum of the first pass leaves 64 bits. |
| FieldNormalize.MagnitudeSuffices | crypto/secp256k1/libsecp256k1/src/field_5x52_impl.h:33-51 | That is so for every element of magnitude up to 2047. |
| FieldNormalize.MagnitudeTooLarge | crypto/secp256k1/libsecp256k1/src/field_5x52_impl.h:33-51 | An element of magnitude 2048 that normalization gets wrong. |
| ScalarInverse.Blocks | crypto/secp256k1/libsecp256k1/src/scalar_impl.h:70-127 | The blocks x^(2^n - 1) of the chain. |
| ScalarInverse.Inverse | crypto/secp256k1/libsecp256k1/src/scalar_impl.h:65-255 | The chain of squarings and products computes x^(N - 2) modulo N. |
| ScalarInverse.InverseByFermat | crypto/secp256k1/libsecp256k1/src/scalar_impl.h:65-255 | That power inverts every x with x^(N - 1) = 1. |
| FieldInverse.Inv | crypto/secp256k1/libsecp256k1/src/field_impl.h:136-224 | The chain computes a^(P - 2) modulo P, at magnitude 1. |
| FieldInverse.Sqrt | crypto/secp256k1/libsecp256k1/src/field_impl.h:38-134 | The chain computes a^((P + 1) / 4), and the flag says exactly whether it squares to a. |
| FieldInverse.SqrtOfSquare | crypto/secp256k1/libsecp256k1/src/field_impl.h:39-48 | If a has a square root y with y^(P - 1) = 1 then the candidate is one. |
| FieldInverse.FeEqual | crypto/secp256k1/libsecp256k1/src/field_impl.h:24-29 | Negating, adding and testing for zero decides equality of residues, for a second operand of magnitude up to 2045. |
| FieldInverse.StepBack | crypto/secp256k1/libsecp256k1/src/field_impl.h:279-285 | One backward step turns an inverse of x * y into inverses of y and of x. |
| FieldInverse.InvAllVar | crypto/secp256k1/libsecp256k1/src/field_impl.h:263-288 | For arrays of any length with invertible entries every r[i] inverts a[i]. |
| FieldInverse.SameAsInvertingAlone | crypto/secp256k1/libsecp256k1/src/field_impl.h:263-288 | Each of them is congruent to what inverting the entry alone gives. |
| Coordinates.Rescaled | crypto/secp256k1/libsecp256k1/src/group_impl.h:74-82 | Scaling x by s^2 and y by s^3 names the same point over z * s. |
| Coordinates.GeSetGejZinv | crypto/secp256k1/libsecp256k1/src/group_impl.h:74-82 | The point over any denominator w that is z times the factor given. |
| Coordinates.GeSetGejVar | crypto/secp256k1/libsecp256k1/src/group_impl.h:113-127 | The affine form of one point, which its Jacobian form is left as, too; infinity stays as it is. |
| Coordinates.GeSetAllGejVar | crypto/secp256k1/libsecp256k1/src/group_impl.h:129-153 | The affine form of every point that is not infinity, with one inversion for all of them. |
| Coordinates.GeSetTableGejVar | crypto/secp256k1/libsecp256k1/src/group_impl.h:155-171 | The affine form of every point of a table with known ratios of z, with one inversion. |
| Coordinates.GeGlobalzSetTableGej | crypto/secp256k1/libsecp256k1/src/group_impl.h:173-196 | Every point of a table over the z of the last one, with no inversion. |
| Coordinates.SamePointUnique | crypto/secp256k1/libsecp256k1/src/tests.c:2042-2063 | Over one denominator a point has one pair of coordinates, so all these conversions agree. |
| RlpCoding.BigEndianInverse | utils/rlp/encode.go:432-487 | Reading a number back from its shortest big-endian bytes gives the number. |
| RlpCoding.FromBigEndianInverse | utils/rlp/decode.go:1103-1121 | Bytes without a leading zero are the shortest form of the number they spell. |
| RlpCoding.HeaderUnique | utils/rlp/decode.go:1053-1096 | Two headers at the start of the same bytes have the same kind and size. |
| RlpCoding.PrefixFree | utils/rlp/decode.go:1053-1096 | At most one value has an encoding at the start of given bytes. |
| RlpCoding.StringForm | utils/rlp/decode.go:1056-1077 | A byte below 128 stands for itself; any other string follows its size, in the tag below 56 and behind it from there on. |
| RlpCoding.ListForm | utils/rlp/decode.go:1078-1096 | A list is its size and then the encodings of its values one after another. |
| RlpCoding.BigEndianForm | utils/rlp/decode.go:1107-1122 | Sizes and integers have the most significant byte first. |
| RlpCoding.EncodeInjective | utils/rlp/encode.go:78-86 | Distinct values have distinct encodings. |
| RlpBuffer.PutInt | utils/rlp/encode.go:432-487 | Writes the shortest big-endian bytes of any 64-bit number and nothing around them. |
| RlpBuffer.IntSize | utils/rlp/encode.go:490-496 | Exactly the number of those bytes. |
| RlpBuffer.PutHead | utils/rlp/encode.go:127-135 | Writes exactly the header of a string or list of the given size. |
| RlpBuffer.SpliceAppend | utils/rlp/encbuffer.go:65-79 | Data and headers appended behind what is there come out behind it. |
| RlpBuffer.EncBuffer.EncodeStringHeader | utils/rlp/encbuffer.go:218-226 | Appends exactly the header of a string. |
| RlpBuffer.EncBuffer.WriteBytes | utils/rlp/encbuffer.go:134-142 | Appends the encoding of the byte string. |
| RlpBuffer.EncBuffer.WriteUint64 | utils/rlp/encbuffer.go:121-132 | Appends the encoding of the integer's shortest big-endian bytes, the empty string for 0. |
| RlpBuffer.EncBuffer.List | utils/rlp/encbuffer.go:194-197 | Opens a list at the current end of the data. |
| RlpBuffer.EncBuffer.ListEnd | utils/rlp/encbuffer.go:199-207 | The header gets the size of everything written since it was opened, and the header total grows by that header's length. |
| RlpBuffer.EncBuffer.EncodeItem | utils/rlp/encode.go:287-341 | What writing a value adds to data and headers splices to exactly its encoding, wherever and however deep it is written. |
| RlpOutput.OutputSize | utils/rlp/encbuffer.go:54-56 | size() is the length of the spliced output. |
| RlpOutput.CopyTo | utils/rlp/encbuffer.go:65-79 | The slice starts with exactly the output. |
| RlpOutput.WriteTo | utils/rlp/encbuffer.go:82-104 | The writer receives exactly the output, or if it fails exactly a beginning of it; it fails only for want of room. |
| RlpOutput.EncReader.Next | utils/rlp/encbuffer.go:262-293 | The piece returned followed by what is left is what was left before. |
| RlpOutput.EncReader.Read | utils/rlp/encbuffer.go:237-258 | A buffer of any size receives the next bytes, as many as there are or fit, and EOF is reported exactly when what was left fits. |
| RlpOutput.ReadAll | utils/rlp/encbuffer.go:237-258 | Any sequence of buffer sizes reads the output in order, as much of it as there is or as the buffers hold together. |
| RlpOutput.ReadEncoding | utils/rlp/encode.go:88-103 | Buffers with room for the announced size receive exactly the encoding, smaller ones a beginning of it. |
| RlpOutput.EncodeToBytes | utils/rlp/encode.go:78-86 | The slice is the encoding of the value. |
| RlpOutput.EncodeToWriter | utils/rlp/encode.go:62-74 | The writer gets the whole encoding, or a beginning of it exactly when it has no room for the whole. |
| RlpOutput.EncodeToReader | utils/rlp/encode.go:93-103 | The reader yields the encoding, and the size is its length. |
| RlpStream.WrappedNeverCloses | utils/rlp/decode.go:806-811 | A list that fits its frame only without its header, which has at most nine bytes, leaves a frame that no reading of the input brings to zero. |
| RlpStream.ClosesExactly | utils/rlp/decode.go:820-831 | A frame that reaches zero was used up exactly. |
| RlpStream.Stream.WillRead | utils/rlp/decode.go:1161-1177 | Succeeds exactly when list and input have that many bytes left, and charges both; otherwise says which of them falls short. |
| RlpStream.Stream.ReadFull | utils/rlp/decode.go:1126-1145 | Succeeds exactly then, with the next bytes of the input; otherwise the error says what falls short. |
| RlpStream.Stream.ReadUint | utils/rlp/decode.go:1099-1123 | The big-endian number of that many bytes; a leading zero is refused, and otherwise the error says what falls short. |
| RlpStream.Stream.ReadKind | utils/rlp/decode.go:1039-1097 | The header consumed is that of the kind and size returned; every error is the one for what is wrong with the header. |
| RlpStream.Stream.Kind | utils/rlp/decode.go:1012-1037 | Leaves the pending input and frames as they are; end of list exactly when the innermost frame is empty. Every error is the one for what is wrong with tag, size or room. |
| RlpStream.Stream.Bytes | utils/rlp/decode.go:636-657 | Consumes exactly the encoding of the string returned; every string's encoding that fits is accepted. A list, a small byte written as a string and a string too long for its list have their own errors. |
| RlpStream.Stream.Uint | utils/rlp/decode.go:743-774 | Consumes exactly the encoding of the integer returned, which fits the width; every such integer's encoding is accepted and gives it back. A list, a leading zero, a small byte written as a string and a number too wide have their own errors. |
| RlpStream.Stream.List | utils/rlp/decode.go:797-816 | Consumes the header, charges the whole list to the outer frame by a 64-bit subtraction, and opens a frame. The outer frame keeps what is left when header and size fit it, and can never be closed when they do not. Anything but a list has its own error. |
| RlpStream.Stream.ListEnd | utils/rlp/decode.go:820-831 | Closes the innermost frame exactly when it is empty. Otherwise says whether there is none or it is not empty. |
| RlpDecode.DecodeInterface | utils/rlp/decode.go:518-540 | On success the input consumed is the encoding of the value; every encoding that fits is accepted and gives its value; end of list changes nothing. |
| RlpDecode.DecodeListSlice | utils/rlp/decode.go:298-311 | The same for lists: only a frame used up exactly is closed. |
| RlpDecode.DecodeSliceElems | utils/rlp/decode.go:313-340 | Consumes the encodings of the values returned, up to an empty frame. |
| RlpDecode.DecodeBytes | utils/rlp/decode.go:93-107 | Accepts exactly the byte strings that are the encoding of some value, and returns that value. An empty slice, and one with more behind its first value, are told from the others. |
| RlpDecode.RoundTrip | utils/rlp/doc.go:21-30 | Decoding what the encoder produces gives the value back. |
| RlpRaw.ReadSize | utils/rlp/raw.go:194-223 | Succeeds exactly for sizes of at least 56 without a leading zero whose bytes are all there. Otherwise says which of the two is wrong. |
| RlpRaw.ReadKind | utils/rlp/raw.go:153-192 | Succeeds exactly when a header with its contents starts the slice, and then with that kind and those sizes. The error says what is wrong with the start. |
| RlpRaw.PieceUnique | utils/rlp/raw.go:153-192 | At most one header with its contents starts a slice. |
| RlpRaw.PieceOfItem | utils/rlp/raw.go:153-192 | The encoding of every value is one, with the value's own contents. |
| RlpRaw.PiecesUnique | utils/rlp/raw.go:141-151 | A slice is a row of them in at most one way. |
| RlpRaw.Split | utils/rlp/raw.go:80-86 | The slice is header, contents and rest; an error exactly when no header with its contents starts it. |
| RlpRaw.CountValues | utils/rlp/raw.go:141-151 | Counts exactly the rows of headers with their contents, by their number; k for the concatenation of k encodings. |
| Ledger.Execute | statemachine/machine.go:15-47 | Executes exactly the transactions with enough gas whose sender holds the cost: the sender pays it and its nonce goes up, the recipient gets the value, no other account changes; any other transaction changes none. Says what gas is used. |
| Ledger.ExecutedAccounts | statemachine/machine.go:22-44 | The same of the accounts a transaction leaves, account by account, self-transfers included. |
| Ledger.TransferredOnce | statemachine/machine.go:35-44 | That account leaves nothing about them open. |
| Ledger.ExecutedTotal | statemachine/machine.go:22-44 | What every execution does to the sum of all balances, wrapping and self-transfers included; exactly the fee leaves it if and only if as many 2^64 are lost on the cost as on the credit. |
| Ledger.Conservation | statemachine/machine.go:22-44 | When nothing wraps, exactly 21000 times the gas price leaves the total. |
| Ledger.FeeWrapsAway | statemachine/machine.go:26-27 | A transaction whose fee wraps to nothing. |
| Ledger.ExecutedNonces | statemachine/machine.go:35-44 | The sender's nonce goes up by one and no other changes. |
| PoolSide.PromotedKeeps | txpool/default.go:225-239 | Promotion moves a beginning of the queue behind the pending transactions, losing, doubling and reordering nothing. |
| PoolSide.PromotedOnce | txpool/default.go:225-239 | A second promotion does nothing. |
| PoolSide.PromotedOrdered | txpool/default.go:225-239 | After promotion the queue starts beyond the next pending nonce again. |
| PoolSide.PushedOrdered | txpool/default.go:198-214 | The next nonce keeps pending nonces consecutive, whichever block it goes into. |
| PoolSide.SortIsSort | txpool/default.go:193-195 | Sorting by nonce gives the same transactions in nonce order. |
| PoolSide.QueuedContents | txpool/default.go:177-196 | The queue keeps strictly increasing nonces, gains exactly a new nonce, and keeps its length for one it has. |
| PoolSide.QueuedOrdered | txpool/default.go:177-196 | A queued transaction keeps the sender's side in order. |
| PoolSide.ReplacedFlat | txpool/default.go:241-258 | A replacement puts the transaction exactly where its nonce is among the pending ones, or changes nothing. |
| PoolSide.ReplacedOrdered | txpool/default.go:241-258 | A replacement keeps the sender's side in order. |
| PoolSide.PoppedFlat | txpool/default.go:117-129 | Popping takes exactly the first pending transaction. |
| PoolSide.PoppedOrdered | txpool/default.go:117-129 | Popping keeps the order, for the account as it is and with its nonce one higher. |
| PoolSide.AcceptedOrdered | txpool/default.go:147-175 | Any new transaction keeps its sender's side in order while the nonce it is measured against is not the greatest. |
| PoolSide.AcceptedKeeps | txpool/default.go:147-175 | The three ways a new transaction can go, with what each keeps: nothing lost, nothing doubled, promotion complete. |
| PoolSide.GreatestNonceDisorders | txpool/default.go:163-174 | Behind the greatest nonce every transaction that is not ignored breaks the order of its sender. |
| PoolSide.AcceptedOrderedExactly | txpool/default.go:147-175 | A new transaction keeps its sender in order if and only if it is below the account nonce or the last pending nonce, or the account nonce without pending ones, is not the greatest. |
| PoolSide.GreatestNonceWraps | txpool/default.go:163-174 | An ordered sender whose side a repeated greatest nonce disorders. |
| PoolSide.KeptFrom | txpool/default.go:136-144 | What cleaning keeps is exactly what has neither expired nor fallen behind, in order. |
| TxPool.SortedTxs.Replace | txpool/default.go:47-54 | Puts the transaction in place of the first one with its nonce and changes nothing else. |
| TxPool.DefaultPool.PushPendingTx | txpool/default.go:198-214 | Push and promote, in mutual recursion, end with the pushed blocks fully promoted; other senders are untouched. |
| TxPool.DefaultPool.PromoteQueueToPending | txpool/default.go:225-239 | The loop and its recursive calls end with the queue fully promoted. |
| TxPool.DefaultPool.AddQueue | txpool/default.go:177-196 | A nonce already queued is replaced exactly by a higher price, every other position as before; another nonce joins in its place. |
| TxPool.DefaultPool.NewTx | txpool/default.go:147-175 | For every transaction its sender's blocks and queue change by the effect below, other senders are untouched, and the invariant of all senders holds afterwards exactly under the condition above. |
| PoolEffects.QueuedEffect | txpool/default.go:177-196 | A queued nonce is replaced at a higher price only, and nothing else in the queue moves; another nonce joins in order. |
| PoolEffects.PushedGrouped | txpool/default.go:198-214 | A transaction joins the last block if it pays at least what that block opens at, and opens a new one exactly if it pays less. |
| PoolEffects.PromotedEffect | txpool/default.go:225-239 | Promotion groups the same way, takes consecutive nonces, and stops only where the next one is missing. |
| PoolEffects.ReplacedEffect | txpool/default.go:241-258 | Exactly the pending transaction with the same nonce is replaced, and exactly if the block that holds it opens at no higher price. |
| PoolEffects.AcceptedEffect | txpool/default.go:147-175 | What any new transaction does to its sender's blocks and queue, stated by what is where before and after. |
| PoolEffects.EffectOnce | txpool/default.go:147-175 | That leaves one outcome only. |
| PoolEffects.QueueRun | txpool/default.go:177-196 | Over any run of offers the queue holds, for each nonce, exactly the earliest of the dearest transactions offered. |
| TxPool.DefaultPool.PopPendingTx | txpool/default.go:117-129 | Keeps the invariant and takes the sender's first pending transaction, with its block when that empties it. |
| TxPool.DefaultPool.Pop | txpool/default.go:273-289 | The same for some sender that has one; none exactly when nobody has. |
| TxPool.DefaultPool.CleanExpiredTxs | txpool/default.go:132-145 | Keeps the invariant, all pending transactions, and exactly the queued ones that are not below the minimum nonce and at most 600 seconds old. |
| BlockMaker.PoppedPlaces | maker/blockmaker.go:69-75 | Every pop leaves strictly fewer pending transactions, which is why packing ends. |
| BlockMaker.BlockMaker.PackOne | maker/blockmaker.go:78-93 | Packs the popped transaction exactly when its sender can pay; one that does not execute has left the pool and touched no account; the pool's invariant holds against the new accounts. |
| BlockMaker.BlockMaker.Pack | maker/blockmaker.go:69-93 | Packs until nobody has a pending transaction or one fails, which has then left the pool and is not in the block. The block is a run of payable transactions from the accounts before to those after, and takes each sender's pending ones in order; one receipt each. Each sender's nonce rises by the number of its packed transactions; without wrapping the balances fall by exactly the fees. |
| TrieNodes.InsertFits | mpt/trie.go:80-209 | Any insertion into a tree of keys of bytes leaves one: at each node the nibbles left have one parity. |
| TrieNodes.SplitExtension | mpt/trie.go:113-145 | The branch at which a key leaves an extension finds everything as before, and the key unless it parts at its last nibble. |
| TrieNodes.SplitLeaf | mpt/trie.go:147-205 | The branch at which a key leaves a leaf's key finds each of the two unless it parts at its own last nibble. |
| TrieNodes.InsertLaw | mpt/trie.go:80-209 | For every tree, key and value, what every lookup finds after an insertion: nothing for the key displaced, the value for the new key unless it is dropped, everything else as before. |
| TrieNodes.DroppedMissing | mpt/trie.go:131-143 | A key that is dropped was not found before either. |
| TrieNodes.DisplacedPresent | mpt/trie.go:170-182 | A key that is displaced is another one that was found before. |
| TrieNodes.InsertExact | mpt/trie.go:80-209 | Insertion is an update of what lookups find if and only if the key is safe: it leaves no extension and no leaf's key at its own last nibble and no leaf's key is left at that one's. |
| TrieKeys.SafeWhenApart | mpt/trie.go:80-209 | A key is safe to insert when no key found parts from it at a last nibble of the two, whatever their lengths. |
| TrieKeys.InsertFull | mpt/trie.go:80-209 | A safe insertion keeps a key below every extension, which the condition above needs. |
| TrieKeys.SafeIsNoTwin | mpt/trie.go:80-209 | Among keys of one length a key is safe if and only if no key found agrees with the new one up to the last nibble. |
| TrieKeys.TwinsAreLost | mpt/trie.go:147-205 | Among keys of one length, a key that does agree with one found is dropped and displaces it. |
| TrieKeys.DroppedExactly | mpt/trie.go:80-209 | A key is dropped if and only if, at some node on its way down, it leaves an extension or a leaf's key at its own last nibble. |
| TrieKeys.DisplacedExactly | mpt/trie.go:147-205 | A key is displaced if and only if the new one comes to its leaf and leaves its key at that one's last nibble. |
| Trie.KeyToHexInjective | mpt/node.go:139-146 | Distinct keys have distinct nibbles. |
| Trie.KeyToHexInverse | mpt/node.go:139-146 | Every even number of nibbles are the nibbles of a key. |
| Trie.InsertAgreesExactly | mpt/trie.go:69-77 | A tree that agrees with a map agrees with the updated map after an insertion if and only if the key is safe, for keys of any lengths. |
| Trie.Trie.Get | mpt/trie.go:27-66 | Finds exactly what the trie holds, over every run of insertions. |
| Trie.Trie.Insert | mpt/trie.go:69-77 | For every key and value, after every run: what the trie holds afterwards, and that it is the update of what it held if and only if the key is safe. |
| Trie.RunExact | mpt/trie.go:69-77 | Over a whole run from the empty trie, it holds what was written after every insertion if and only if every key is safe where it is inserted. |
| Trie.RunApart | mpt/trie.go:69-77 | For keys of any lengths of which no two part at a last nibble of the two, it is a map over the whole run. |
| Trie.RunOfOneLength | mpt/trie.go:69-77 | For keys of one length, it is a map over the whole run if and only if no two keys agree up to the last nibble. |
| Trie.LastByteLost | mpt/mpt_test.go:37-40 | Two keys that differ only in the low half of the last byte, as those the test inserts: neither is found. |
| Trie.OrderMatters | mpt/trie.go:80-209 | Four keys for which the trie is a map in one order and not in another. |

## Left out

- `Ecmult.Ecmult`: Jacobian coordinates, the shared Z of the tables and the isomorphism they rely on are not modelled; a point is its logarithm, so `secp256k1_gej_add_zinv_var` is an addition, and the storage form of the tables is the table itself.
- `Ecmult.OddMultiplesTable`: the z ratios it returns beside the points are not modelled.
- `EcmultGen.GenContext.Blind`: the numbers drawn from the seeded generator are a parameter, nonzero and reduced as the retry loops make them; the rescaling of the projective coordinates leaves the point alone.
- `EcmultGen.GenContext.Build`: the offset point decoded from the fixed string is a parameter, required to make no table entry infinity, which the source checks when it stores them; copying and clearing a context are not modelled.
- `Field.Fe.MulInner`: the columns are formed before the fold, which then runs through the same accumulators in the same order; the source interleaves the two and shares no code between product and square.
- `Field.Fe.Negate`: the other limb-wise operations (`fe_add`, `fe_mul_int`, `fe_cmov`, byte and storage conversions) are not modelled.
- `FieldInverse.InvAllVar`: arrays hold elements by value.
- `Coordinates.GeSetAllGejVar`: the array of denominators is allocated at its final size. That x and y solve the curve equation, and the group law on coordinates, are not part of this model.
- `Coordinates.GeSetGejVar`: the point and the updated Jacobian form are returned instead of stored; elements have an inverse in the sense of Fermat's congruence.
- `FieldNormalize.NormalizesToZero`: the words that collect bits by OR and AND are modelled as the conjunctions of limb conditions they stand for.
- `Scalars.Scalar.Add`: new limbs are computed in locals and stored together, as in the other operations on scalars; the conversions from and to 32 bytes are not modelled.
- `RlpBuffer.PutInt`: its eight unrolled cases are one loop over the size class.
- `RlpBuffer.EncBuffer.EncodeItem`: reflection, struct tags, optional fields, nil pointers, the type cache and buffer pooling are not modelled; a value is a tree of byte strings. `writeBigInt` and `writeUint256` are not modelled.
- `RlpOutput.EncReader.Next`: a piece that aliases the buffer's scratch space is taken by value, and an empty piece stands for nil.
- `RlpStream.Stream.ReadFull`: the stream reads from a slice; other readers and their errors are not modelled, and neither are `Raw`, `ReadBytes`, `Bool` and the big integer decoders.
- `RlpStream.Stream.Kind`: what a stream holds, and reports again, after an error is left open.
- `RlpRaw.Split`: `SplitString`, `SplitUint64`, `SplitList`, the size functions and `AppendUint64` are not modelled.
- `Ledger.Execute`: the state database is a map; the encoding of accounts into the key-value store is not modelled.
- `TxPool.DefaultPool.NewTx`: the arrival time is a parameter, and the sender is a field of the transaction instead of being recovered from its signature.
- `TxPool.DefaultPool.MakeNewBlock`: the list of all blocks by gas price is not kept, since nothing reads it.
- `TxPool.DefaultPool.Pop`: which sender the iteration over the map meets first is left open.
- `TxPool.DefaultPool.AddQueue`: the library sort is an insertion sort; nonces in the queue are distinct, so any sort gives the same list.
- `BlockMaker.BlockMaker.Pack`: headers, timestamps, difficulty and the interrupt channel are not modelled.
- `Trie.Trie.Insert`: the tree is a value and its root is reassigned; updates of nodes in place, storing nodes and root hashes are not modelled. `Delete` is not modelled.
- DER signatures, SHA-256 and HMAC buffering, ECDSA itself, proof of work, the key-value store, JSON and the command line are not modelled.
- Constant-time behaviour and the strength of blinding are not functional properties.
- The 10x26, 8x32 and assembly variants are not modelled.
