# Verification models for OpenVM

This project models, in Dafny, five parts of OpenVM whose correctness is hard
to see by reading, and proves what each of them is for.

* **The prime field generator** (`guest-libs/ff_derive`). The unrolled limb code
  is modelled as loops over limb arrays of any length `L`, with `R = 2^(64 L)`
  and the generator's rule `2 m <= R`. Limbs are words below `2^64`; `mac`,
  `adc` and `sbb` are defined by their double-word meaning. Modules `WordBits`,
  `Words`, `LimbProducts`, `Montgomery`, `FieldElement`, `Repr` cover the limbs;
  `PowFixed` the addition-chain programs and the build-time `exp`, and `LimbPow`
  those programs on limbs; `Sqrt` the square roots and the inversion on limbs,
  with their constants; `NumberTheory` and `Residue` the theory of primes that
  these rest on (inverses, Wilson, Euler's criterion, Fermat), proved from
  scratch.
* **Nested flat containers and the quartic extension**
  (`crates/recursion`). `MultiVec` proves a flat vector with offset tables
  equal to the nested list it stands for, at any depth. `ExtField` proves the
  algebra of `F[X] / (X^4 - W)`, the equality kernels and the sumcheck
  interpolation.
* **The deferral check** (`crates/verify`). `DeferralMerkle` proves what two
  Merkle paths with shared siblings say about two memory images, in both
  directions. The compression function is a parameter; only soundness assumes
  it injective.
* **Streaming hashers** (`guest-libs/sha2`, `guest-libs/keccak256`). `Sha2` and
  `Keccak` prove stateful, buffered hashers equal to the one-shot hash of the
  concatenated input under every chunking. Compression function and
  permutation are parameters.
* **Schedules, scopes and encodings.** `HeapAdapters` proves that constraints,
  executor and trace filler of the rv32 heap adapters agree on every access;
  `ContextTree` the invariants and the accounting of the profiling scopes;
  `CommitBytes` and `EvmProof` the bijections between bytes, base-`p` digests,
  scalars and the two forms of an EVM proof.

`Arith`, `Digits`, `Bytes` and `Common` hold shared vocabulary: powers,
congruences, positional numbers, byte strings. `Arith.Rem` and `Digits.Quo` are
remainder and quotient by a modulus that is a variable. They are defined by
repeated subtraction, so that a proof meets non-linear arithmetic only where it
asks for it; `Arith.RemIsMod` proves `Rem` equal to `%`, and `Digits.QuoRem` is
the defining equation of both. `%` and `/` are used with literal divisors.
`Digits.Val` is the value of a little-endian number and `Digits.BeVal` of a
big-endian one.

Panics of the source appear as results: `None`, an `Err`, or a false `ok`. A
`requires` states what the source itself demands of its callers: operands
reduced below the modulus, as many components as there are dimensions, cell
counts that do not run backwards.

Results that are not what a first reading suggests:

* `ContextTree.RootTotal`: a scope whose name is empty, or `root` at the top,
  gets no line. The lines of a tree sum to its total exactly when, going down
  through scopes without a line of their own, none has cells of its own.
  `ContextTree.RootInsideRoot` is a tree that loses every cell although its root
  has none of its own: its only child is called `root` as well.
* `MultiVec.MultiVecWithBounds.Index`: a component that reaches past its own
  group is not always caught. Indexing answers as the nested list does exactly
  when it panics or every component stays inside its group, which the tables
  tell; `MultiVec.NeighbourAnswers` is an input where it returns a row of the
  next group.
* `HeapAdapters.ChecksAgreeIff`: constraints and filler request the same range
  checks for every register content exactly when there are at most two reads
  (or for the is-equal adapter, whose generic number of reads does not matter).
* `HeapAdapters.RangeCheckIff`: the check on the top byte bounds the whole
  pointer exactly when there are at least 24 address bits.
* `EvmProof.RawRoundTrip` and `EvmProof.EvmRoundTrip`: the round trips are the
  identity exactly when the user values are single bytes, and exactly when the
  accumulator has twelve scalars and there is at least one user value.
  `EvmProof.WideUserValue` and `EvmProof.NoUserValues` are inputs where they are
  not.

## Model

| member | source | states |
|---|---|---|
| FieldElement.LimbCount | guest-libs/ff_derive/src/lib.rs:205-215 | the chosen limb count has room for twice the modulus, and no smaller positive count has |
| FieldElement.BigUintToWords | guest-libs/ff_derive/src/lib.rs:479-496 | the assertion passes exactly when the number fits the limbs, and then the limbs have its value |
| FieldElement.ShortWords | guest-libs/ff_derive/src/lib.rs:483-487 | the division loop gives the shortest limbs of the number |
| FieldElement.Build | guest-libs/ff_derive/src/lib.rs:577-704 | for every odd modulus the limbs of the modulus, `R`, `R2` and `INV` exist, fit, and meet all that the limb code assumes of them; the limbs of `R` stand for 1 |
| FieldElement.ToMont | guest-libs/ff_derive/src/lib.rs:578-579 | the limbs of a constant times `R` are reduced and stand for the constant |
| Montgomery.InvStep | guest-libs/ff_derive/src/lib.rs:700-702 | one squaring round gets one more low bit of the inverse right, wrap-around included |
| Montgomery.ComputeInv | guest-libs/ff_derive/src/lib.rs:698-704 | after 63 rounds `INV * m0` is -1 modulo 2^64, for every odd `m0` |
| Words.Mac | guest-libs/ff_derive/src/lib.rs:822-830 | low and high word together carry `a + b c + carry` with nothing lost |
| Words.Adc | guest-libs/ff_derive/src/lib.rs:832-842 | low word and carry together carry the sum, with carry at most one when an operand is a carry |
| Words.Sbb | guest-libs/ff_derive/src/lib.rs:1389-1397 | the difference wraps and the borrow word is all ones exactly after an underflow |
| WordBits.ShiftOrIsAdd | guest-libs/ff_derive/src/lib.rs:893-905 | the word that shifts and or make of two 64-bit limbs has the value of the two functions on numbers that the model adds |
| Words.MacRow | guest-libs/ff_derive/src/lib.rs:957-977 | one row of multiply-accumulate adds exactly `x b` at its position, outgoing carry included, and touches no other limb |
| LimbProducts.MulWide | guest-libs/ff_derive/src/lib.rs:947-978 | the schoolbook rows give exactly the 2L limbs of the product |
| LimbProducts.OffDiagonalRows | guest-libs/ff_derive/src/lib.rs:863-887 | the triangular rows give the sum of products of different limbs, each once |
| LimbProducts.DoubleLimbs | guest-libs/ff_derive/src/lib.rs:889-907 | the top-down shift across limbs doubles the number and loses no bit |
| LimbProducts.AddDiagonal | guest-libs/ff_derive/src/lib.rs:915-931 | the last pass adds the squares of all limbs at even positions |
| LimbProducts.SquareExpansion | guest-libs/ff_derive/src/lib.rs:860-931 | twice the off-diagonal products plus the diagonal is the square, at every split point |
| LimbProducts.SquareWide | guest-libs/ff_derive/src/lib.rs:860-931 | squaring yields the very limbs that the schoolbook product of `a` with itself has, also for one limb, and the dropped carry is zero |
| Montgomery.LowLimbClears | guest-libs/ff_derive/src/lib.rs:819-826 | the multiplier chosen with `INV` makes the lowest limb zero, so it may be dropped |
| Montgomery.MontRound | guest-libs/ff_derive/src/lib.rs:819-842 | one round adds a multiple of the modulus, divides out one limb and keeps the second carry a bit |
| Montgomery.FinalLimbs | guest-libs/ff_derive/src/lib.rs:845-855 | after the last round the carry that the code drops is zero and the kept limbs are below twice the modulus |
| Montgomery.MontReduce | guest-libs/ff_derive/src/lib.rs:1666-1678 | every input below `m R` is reduced to a value `v < m` with `v R` congruent to it |
| Montgomery.CmpNative | guest-libs/ff_derive/src/lib.rs:1607-1617 | the top-down limb comparison decides the numeric order |
| Montgomery.IsValid | guest-libs/ff_derive/src/lib.rs:1623-1627 | true exactly for values below the modulus |
| Montgomery.AddNoCarry | guest-libs/ff_derive/src/lib.rs:1631-1639 | addition modulo `R`, and plain addition whenever the sum fits |
| Montgomery.SubNoBorrow | guest-libs/ff_derive/src/lib.rs:1643-1651 | subtraction modulo `R`, and plain subtraction whenever it does not go below zero |
| Montgomery.Reduce | guest-libs/ff_derive/src/lib.rs:1657-1661 | subtracts the modulus once when and only when the value is not below it |
| FieldElement.AddAssign | guest-libs/ff_derive/src/lib.rs:1264-1273 | reduced operands give a reduced result that stands for the sum; the addition never overflows |
| FieldElement.SubAssign | guest-libs/ff_derive/src/lib.rs:1304-1314 | reduced operands give a reduced result that stands for the difference |
| FieldElement.Neg | guest-libs/ff_derive/src/lib.rs:1229-1239 | the result is reduced and stands for the negation, zero included |
| FieldElement.Double | guest-libs/ff_derive/src/lib.rs:1525-1548 | the shift with bit hand-over and one reduction stand for doubling |
| FieldElement.MulAssign | guest-libs/ff_derive/src/lib.rs:1347-1350 | product then reduction stand for multiplication in the field, also with one unreduced operand |
| FieldElement.Times | guest-libs/ff_derive/src/lib.rs:1323-1333 | the copying operator stands for the same multiplication |
| FieldElement.Square | guest-libs/ff_derive/src/lib.rs:1570-1579 | the separate squaring code stands for the product of the element with itself |
| FieldElement.ToMontgomery | guest-libs/ff_derive/src/lib.rs:1399-1402 | multiplying by `R2` makes plain limbs stand for their own value |
| FieldElement.FromU64 | guest-libs/ff_derive/src/lib.rs:1142-1156 | the element stands for the given integer modulo `m` |
| FieldElement.Canonical | guest-libs/ff_derive/src/lib.rs:1118-1121 | reducing the limbs padded with zeros gives the residue itself |
| FieldElement.Cmp | guest-libs/ff_derive/src/lib.rs:1108-1132 | elements are ordered by their canonical residue |
| FieldElement.IsZero | guest-libs/ff_derive/src/lib.rs:1513-1522 | all limbs zero decides that the value is zero |
| FieldElement.DecodeInjective | guest-libs/ff_derive/src/lib.rs:1206-1214 | reduced limbs are equal exactly when they stand for the same residue |
| Repr.FromBytesValue | guest-libs/ff_derive/src/lib.rs:64-81 | reading the limbs preserves the number, for both byte orders |
| Repr.ByteOrder | guest-libs/ff_derive/src/lib.rs:64-73 | a little-endian string starts with its lowest byte and a big-endian one ends with it |
| Repr.FromToBytes | guest-libs/ff_derive/src/lib.rs:113-134 | limbs written to bytes and read again are the same limbs, for both byte orders |
| Repr.FinalBorrow | guest-libs/ff_derive/src/lib.rs:1389-1391 | the folded borrow is all ones exactly when the value is below the modulus, else zero |
| Repr.FromRepr | guest-libs/ff_derive/src/lib.rs:1381-1404 | accepted exactly when the number of the bytes is below the modulus, and then standing for it |
| Repr.FromReprVartime | guest-libs/ff_derive/src/lib.rs:1406-1426 | the comparing form accepts exactly what the borrowing form accepts, with the same meaning |
| Repr.ToRepr | guest-libs/ff_derive/src/lib.rs:120-134 | the bytes written have the canonical residue as their number |
| Repr.CtEq | guest-libs/ff_derive/src/lib.rs:1094-1105 | comparing byte strings decides equality in the field, and equality of limbs on reduced operands |
| Repr.BytesRoundTrip | guest-libs/ff_derive/src/lib.rs:1381-1430 | reading then writing restores the bytes exactly when they were accepted |
| Repr.ElementRoundTrip | guest-libs/ff_derive/src/lib.rs:1381-1430 | writing then reading always succeeds and restores every reduced element |
| Repr.ConstantTimeIsReduced | guest-libs/ff_derive/src/lib.rs:1682-1694 | remembering the last difference from the low end decides the numeric order |
| PowFixed.Exp | guest-libs/ff_derive/src/lib.rs:524-540 | square-and-multiply over the bits of the exponent gives the power, for every base, exponent and modulus |
| PowFixed.StepComputes | guest-libs/ff_derive/src/pow_fixed.rs:31-47 | appending the statement of one chain step extends by one exponent what the program computes |
| PowFixed.Generate | guest-libs/ff_derive/src/pow_fixed.rs:13-56 | generation succeeds exactly on chains that refer to earlier entries, and the emitted program raises every base of every modulus to the last chain value |
| LimbPow.RunLimbs | guest-libs/ff_derive/src/pow_fixed.rs:22-56 | run with the limb operations, the program raises the element that the limbs stand for to the same power |
| NumberTheory.Fermat | guest-libs/ff_derive/src/lib.rs:1002-1008 | `a^(p-1)` is 1 for every unit, the fact that the inversion cites |
| Sqrt.SplitTwos | guest-libs/ff_derive/src/lib.rs:588-594 | `p - 1` is the power of two times an odd number |
| Sqrt.Constants | guest-libs/ff_derive/src/lib.rs:583-604 | root of unity and `DELTA` are the powers of the generator they are defined as, the inverses invert, and `DELTA` has order dividing `t` |
| Sqrt.LimbConstants | guest-libs/ff_derive/src/lib.rs:585-608 | the limbs of `ONE`, `TWO_INV`, `GENERATOR`, `ROOT_OF_UNITY`, its inverse and `DELTA` stand for those constants |
| Sqrt.RootOrder | guest-libs/ff_derive/src/lib.rs:596-597 | `g^t` of a non-residue `g` has order exactly `2^s` |
| Sqrt.SquareOrder | guest-libs/ff_derive/src/lib.rs:650-658 | a non-zero square to the power `t` has order dividing `2^(s-1)` |
| Sqrt.Start | guest-libs/ff_derive/src/lib.rs:650-661 | the values before the loops satisfy the loop relation of `x`, `b`, `z` and `v` |
| Sqrt.InnerStep | guest-libs/ff_derive/src/lib.rs:668-676 | one iteration of selects keeps the exact account of `k`, `tmp`, `z` and the flag, also once `tmp` is 1 |
| Sqrt.InnerExit | guest-libs/ff_derive/src/lib.rs:668-676 | when the inner loop ends, `k` is the least number of squarings that kill `b`, and `z` has order `2^(k+1)` |
| Sqrt.InnerLoop | guest-libs/ff_derive/src/lib.rs:663-676 | on limbs, the inner loop reaches that account from any start, and keeps `z` a square root of 1 when it was one |
| Sqrt.StepSearching | guest-libs/ff_derive/src/lib.rs:678-682 | one outer round keeps `x^2 = a b` and strictly lowers the order of `b` |
| Sqrt.StepFound | guest-libs/ff_derive/src/lib.rs:668-682 | when `b` is already 1 the root is kept and the squared `z` is harmless from then on |
| Sqrt.KeepFound | guest-libs/ff_derive/src/lib.rs:678-682 | later rounds never spoil a root, whichever way the select goes |
| Sqrt.TonelliShanks | guest-libs/ff_derive/src/lib.rs:637-687 | on reduced limbs, a root is reported exactly when the element is a square, zero included, and it is reduced and squares to the element |
| Sqrt.QuarterPower | guest-libs/ff_derive/src/lib.rs:613-628 | for `p = 3 mod 4` the power `(p+1)/4` of a square squares back to it |
| Sqrt.SqrtThreeModFour | guest-libs/ff_derive/src/lib.rs:613-635 | on reduced limbs, a root is reported exactly when the element is a square, and it is reduced and squares to the element |
| Sqrt.FermatInverse | guest-libs/ff_derive/src/lib.rs:583-587 | `a^(p-2)` inverts every non-zero residue |
| Sqrt.Invert | guest-libs/ff_derive/src/lib.rs:995-1015 | on reduced limbs, an inverse is reported exactly when the element has one, and it is one |
| MultiVec.MultiVecWithBounds.constructor | crates/recursion/src/utils.rs:317-322 | the empty tables stand for the empty nested list, at any depth |
| MultiVec.MultiVecWithBounds.Push | crates/recursion/src/utils.rs:331-333 | the nested list gains one element in its open row; the tables still describe it |
| MultiVec.MultiVecWithBounds.Extend | crates/recursion/src/utils.rs:343-345 | the nested list gains the elements in its open row; the tables still describe it |
| MultiVec.MultiVecWithBounds.CloseLevel | crates/recursion/src/utils.rs:335-341 | the nested list closes level `l` and all deeper ones; the tables still describe it |
| MultiVec.CloseAppends | crates/recursion/src/utils.rs:335-341 | closing appends one entry to each level from `l` down and changes no other level |
| MultiVec.TableAfterClose | crates/recursion/src/utils.rs:337-340 | the lengths that `close_level` pushes are the new offsets of the nested list |
| MultiVec.DataAfterClose | crates/recursion/src/utils.rs:335-341 | closing leaves the flattened rows as they are |
| MultiVec.UnderStep | crates/recursion/src/utils.rs:352-362 | one step of the index computation agrees with the nested list unless the component reaches the end of its group |
| MultiVec.LookupExact | crates/recursion/src/utils.rs:348-364 | the nested list has a row under a multi-index exactly when the tables have one and no component leaves its group, and it is the same row |
| MultiVec.Place | crates/recursion/src/utils.rs:352-362 | the loop over the tables panics exactly when a running index leaves its table, and otherwise gives the place of the row among all rows |
| MultiVec.MultiVecWithBounds.Index | crates/recursion/src/utils.rs:348-364 | for every multi-index: where the nested list has a row it is returned, and elsewhere the answer is wrong exactly when it does not panic and a component leaves its group |
| MultiVec.RunAndIndex | crates/recursion/src/utils.rs:309-364 | after any run of calls and for every multi-index, indexing answers in this way about the nested list of that run |
| MultiVec.NeighbourAnswers | crates/recursion/src/utils.rs:352-363 | a container and a multi-index for which the answer is a row of the next group |
| MultiVec.Fill | crates/recursion/src/batch_constraint/mod.rs:646-651 | filled group by group and row by row as here, every row is found under its two indices in spite of the extra empty row that each group ends with |
| ExtField.MultiplyIsPolynomialProduct | crates/recursion/src/utils.rs:74-97 | the sixteen-term formula is the polynomial product reduced by `X^4 = W` |
| ExtField.MultiplyCommutes | crates/recursion/src/utils.rs:74-97 | the multiplication is commutative |
| ExtField.MultiplyAssociates | crates/recursion/src/utils.rs:74-97 | the multiplication is associative, for every `W` and every characteristic |
| ExtField.MultiplyDistributes | crates/recursion/src/utils.rs:56-97 | the multiplication distributes over the addition |
| ExtField.Eq1Factored | crates/recursion/src/utils.rs:132-145 | the kernel is `(1 - x)(1 - y) + x y`, also with plain products, and symmetric |
| ExtField.MobiusEq1Factored | crates/recursion/src/utils.rs:147-166 | the kernel is `(1 - 2u)(1 - x) + u x`, as its documentation says, also with plain products |
| ExtField.QuadraticIsPolynomial | crates/recursion/src/utils.rs:389-395 | the nested evaluation is `a + b x + c x^2` with plain products, at every point of the extension |
| ExtField.InterpolationCorrect | crates/recursion/src/utils.rs:366-396 | the result is `a + b alpha + c alpha^2` for every polynomial that meets the three claims, at every `alpha` of the extension |
| ExtField.InterpolantExists | crates/recursion/src/utils.rs:366-396 | whatever the claims are, some quadratic meets them |
| DeferralMerkle.MerklePathRoot | crates/verify/src/deferral.rs:126-145 | the walk computes the root of a path from the leaf that the prefix and the depth-zero rule select |
| DeferralMerkle.ClimbSound | crates/verify/src/deferral.rs:126-145 | under an injective hash, a walk that reaches a tree's root started at that tree's node and used its siblings |
| DeferralMerkle.ClimbComplete | crates/verify/src/deferral.rs:126-145 | a walk over a tree's own siblings reaches its root |
| DeferralMerkle.AccPositionFacts | crates/vm/src/system/memory/controller/dimensions.rs:23-37 | the accumulator's place lies in the deferral address space and inside the tree |
| DeferralMerkle.Verify | crates/verify/src/deferral.rs:48-119 | accepts exactly the proofs that pass every check; the first differing sibling is the one reported |
| DeferralMerkle.VerifySound | crates/verify/src/deferral.rs:48-119 | an accepted proof means: with depth zero, block 1 of the deferral address space holds the accumulator compressed with eight zeros and every other block is the same in both memories; with a positive depth, the node over the first `2^depth` blocks is the accumulator and every later block is the same |
| DeferralMerkle.VerifyComplete | crates/verify/src/deferral.rs:48-119 | memories of which just that holds have an accepted proof |
| DeferralMerkle.NodeOfFour | crates/verify/src/deferral.rs:138-142 | a left child is compressed first, over two levels of the tree |
| DeferralMerkle.CheckDeferral | crates/verify/src/lib.rs:284-346 | exactly which flags, commits, depth, node index and proofs pass, with the feature on and off, and exactly when each of its own errors is reported |
| DeferralMerkle.FlagZeroUnchanged | crates/verify/src/lib.rs:298-316 | what passes with flag zero has zero accumulators and left every block of the deferral address space as it was |
| DeferralMerkle.FlagTwoPinned | crates/verify/src/lib.rs:317-346 | what passes with flag two has the expected hook, holds both accumulators in the place of its depth, and left every other block as it was |
| Sha2.PaddingOfSection511 | guest-libs/sha2/src/zkvm_impl.rs:72-77 | the zero bits added are the least number that section 5.1.1 of FIPS 180-4 allows |
| Sha2.PaddingOfSection512 | guest-libs/sha2/src/zkvm_impl.rs:215-220 | the same for section 5.1.2 of FIPS 180-4 |
| Sha2.PadLayout | guest-libs/sha2/src/zkvm_impl.rs:72-79 | the padded message is the message, the byte 0x80, zeros and the bit length as a big-endian number, and fills whole blocks with none to spare |
| Sha2.HashLayout | guest-libs/sha2/src/zkvm_impl.rs:80-86 | each digest has its length and holds, word by word and big-endian, the state that the blocks of the padded message fold to |
| Sha2.InitialWords256 | guest-libs/sha2/src/zkvm_impl.rs:25-28 | the initial words are the fractions of the square roots of the first eight primes, as section 5.3.3 of FIPS 180-4 says |
| Sha2.InitialWords512 | guest-libs/sha2/src/zkvm_impl.rs:161-171 | the same to 64 bits, as section 5.3.5 says |
| Sha2.InitialWords384 | guest-libs/sha2/src/zkvm_impl.rs:302-312 | the same for the ninth to the sixteenth prime, as section 5.3.4 says |
| Sha2.Hasher.constructor | guest-libs/sha2/src/zkvm_impl.rs:48-56 | a new hasher has absorbed the empty message |
| Sha2.Hasher.Update | guest-libs/sha2/src/zkvm_impl.rs:58-70 | absorbs its input after what came before, and panics exactly when the length counter overflows |
| Sha2.Hasher.Finalize | guest-libs/sha2/src/zkvm_impl.rs:72-87 | the digest is the one-shot hash of everything absorbed, and it panics exactly when the bit length does not fit |
| Sha2.HashChunks | guest-libs/sha2/src/zkvm_impl.rs:191-230 | the digest depends on the concatenation of the pieces alone, and no checked addition fails within the length limit |
| Sha2.TakeStep | guest-libs/sha2/src/zkvm_impl.rs:60-69 | a piece lengthens the buffered tail, or completes one more block of the message |
| Sha2.Sha384.constructor | guest-libs/sha2/src/zkvm_impl.rs:326-330 | overwriting the state of a new SHA-512 hasher makes one that has absorbed the empty message from the SHA-384 words |
| Sha2.Sha384.Update | guest-libs/sha2/src/zkvm_impl.rs:332-334 | absorbs its input after what came before, with the length check of SHA-512 |
| Sha2.Sha384.Finalize | guest-libs/sha2/src/zkvm_impl.rs:336-339 | the cut digest is SHA-384 of everything absorbed, and 48 bytes long |
| Sha2.Sha384IsCutSha512 | guest-libs/sha2/src/zkvm_impl.rs:336-339 | SHA-384 of the standard is the SHA-512 computation from its own initial words, cut to 48 bytes |
| Keccak.PaddedMessageBits | guest-libs/keccak256/src/zkvm_impl.rs:78-90 | the padding bytes are, bit by bit, no suffix and `pad10*1` of section 5.1 of FIPS 202 |
| Keccak.AbsorbPiece | guest-libs/keccak256/src/zkvm_impl.rs:58-75 | XORing a piece in, and permuting when the rate is full, advances the sponge by that piece |
| Keccak.AbsorbPadding | guest-libs/keccak256/src/zkvm_impl.rs:87-93 | setting the two bits in place absorbs the padding, also when both land in the last byte of the rate |
| Keccak.Keccak256.constructor | guest-libs/keccak256/src/zkvm_impl.rs:24-29 | a new hasher has absorbed the empty message |
| Keccak.Keccak256.Reset | guest-libs/keccak256/src/zkvm_impl.rs:32-35 | any hasher is back in the initial state |
| Keccak.Keccak256.XorIn | guest-libs/keccak256/src/zkvm_impl.rs:39-46 | the bytes are XORed in at the index and nowhere else |
| Keccak.Keccak256.Update | guest-libs/keccak256/src/zkvm_impl.rs:58-75 | absorbs its input after what came before |
| Keccak.Keccak256.Finalize | guest-libs/keccak256/src/zkvm_impl.rs:87-100 | the digest is the first 32 bytes of the sponge over everything absorbed and its padding, from the zero state |
| Keccak.HashChunks | guest-libs/keccak256/src/zkvm_impl.rs:58-100 | the digest depends on the concatenation of the pieces alone |
| Keccak.NativeKeccak256 | guest-libs/keccak256/src/zkvm_impl.rs:141-146 | the hook returns the hash of its own input and leaves the shared hasher as it found it |
| Keccak.NativeCalls | guest-libs/keccak256/src/zkvm_impl.rs:126-146 | over any number of calls each result depends on its own input only |
| HeapAdapters.SlotAtPosition | extensions/rv32-adapters/src/vec_heap.rs:145-245 | every access has a place in the schedule, given in closed form |
| HeapAdapters.SlotsAreScheduled | extensions/rv32-adapters/src/vec_heap_branch.rs:101-162 | the schedule of each adapter spelled out: which registers, heap blocks and pointers are accessed at which tick, how many accesses there are, and that only the vector adapter reads the destination register and the branch adapter writes nothing |
| HeapAdapters.AirEval | extensions/rv32-adapters/src/vec_heap.rs:145-245 | the forward counter sends the accesses of the spelled-out schedule, and the total is their number |
| HeapAdapters.ExecutorRead | extensions/rv32-adapters/src/vec_heap.rs:353-404 | the executor performs registers and heap reads in schedule order |
| HeapAdapters.ExecutorWrite | extensions/rv32-adapters/src/vec_heap.rs:406-437 | the executor performs the writes last, and the whole trace is the spelled-out schedule |
| HeapAdapters.FillTraceRow | extensions/rv32-adapters/src/vec_heap.rs:507-553 | the countdown gives every column its scheduled time and ends exactly at the start |
| HeapAdapters.OneInstruction | extensions/rv32-adapters/src/eq_mod.rs:120-194 | constraints, executor and filler agree on slot, address and time of every access, and these are the spelled-out ones, for all read and block counts and all three adapters |
| HeapAdapters.RangeCheckBounds | extensions/rv32-adapters/src/vec_heap.rs:173-193 | the check on the shifted top byte bounds the whole pointer |
| HeapAdapters.RangeCheckIff | extensions/rv32-adapters/src/eq_mod.rs:274-282 | it does so for every pointer exactly with a shift of at most eight, and the constructor asserts less than eight |
| HeapAdapters.ChecksBoundPointers | extensions/rv32-adapters/src/vec_heap.rs:168-193 | the range checks pass exactly when every pointer they are for fits the address bits, whatever the number of reads |
| HeapAdapters.ChecksAgreeIff | extensions/rv32-adapters/src/vec_heap_branch.rs:120-141 | constraints and filler check the same pairs exactly up to two reads, or for the is-equal adapter |
| ContextTree.PushKeeps | crates/static-verifier/src/context_tree.rs:67-87 | `push` keeps children inside their parent, in order and disjoint, with only last children open |
| ContextTree.PushStack | crates/static-verifier/src/context_tree.rs:67-87 | `push` adds its name on top of the open stack |
| ContextTree.PushAdds | crates/static-verifier/src/context_tree.rs:67-87 | in the list of all scopes, `push` adds one last entry, under the last open scope, at the strongest level on the open path, and changes no other |
| ContextTree.PopKeeps | crates/static-verifier/src/context_tree.rs:90-101 | `pop` keeps the same invariant |
| ContextTree.PopStack | crates/static-verifier/src/context_tree.rs:90-101 | `pop` removes the top of the open stack and nothing else |
| ContextTree.PopChanges | crates/static-verifier/src/context_tree.rs:90-101 | in the list of all scopes, `pop` sets the exit of the last open one and changes nothing else |
| ContextTree.OpenIsPath | crates/static-verifier/src/context_tree.rs:58-65 | no scope is open outside the last-child path that the open stack lists |
| ContextTree.Profiler.PushScope | crates/static-verifier/src/context_tree.rs:67-87 | panics exactly when everything is closed; otherwise one scope is added to the list of all scopes and one name to the stack |
| ContextTree.Profiler.PopScope | crates/static-verifier/src/context_tree.rs:90-101 | panics exactly when everything is closed; otherwise one exit is set and one name leaves the stack |
| ContextTree.Run | crates/static-verifier/src/context_tree.rs:67-101 | every run with non-decreasing counts leaves exactly the scopes, with paths, levels, entries and exits, that the calls describe, and a well-formed tree |
| ContextTree.ChildrenFit | crates/static-verifier/src/context_tree.rs:153-157 | the cells of the children never exceed those of the scope, so the subtraction never underflows |
| ContextTree.WriteHelper | crates/static-verifier/src/context_tree.rs:146-161 | the output is one line per named scope with cells of its own, children first |
| ContextTree.NameOnPath | crates/static-verifier/src/context_tree.rs:147-151 | the name passed down is the path from its first name that is neither empty nor `root`, joined by semicolons |
| ContextTree.Write | crates/static-verifier/src/context_tree.rs:142-144 | the output has one such line for each scope with a named path and cells of its own, children first |
| ContextTree.LinesTotal | crates/static-verifier/src/context_tree.rs:146-161 | the lines of any tree sum to the cells under its named scopes |
| ContextTree.NamedTotal | crates/static-verifier/src/context_tree.rs:146-161 | the lines of a named scope sum to its total |
| ContextTree.RootTotal | crates/static-verifier/src/context_tree.rs:146-161 | the lines of any tree sum to at most its total, and to its total exactly when no scope without a name has cells of its own |
| ContextTree.RootInsideRoot | crates/static-verifier/src/context_tree.rs:67-161 | a reachable tree whose root has no cells of its own and whose lines still sum to nothing |
| CommitBytes.BytesToBigUint | crates/continuations/src/commit_bytes.rs:95-102 | the number is the big-endian value of the bytes |
| CommitBytes.BigUintToU32Digest | crates/continuations/src/commit_bytes.rs:104-116 | the digest holds the eight lowest base-`p` digits |
| CommitBytes.U32DigestToBigUint | crates/continuations/src/commit_bytes.rs:118-127 | the number is the base-`p` value of the limbs |
| CommitBytes.DigestFits | crates/continuations/src/commit_bytes.rs:133-139 | any eight 32-bit limbs fit 32 bytes, so the padding subtraction never underflows |
| CommitBytes.U32DigestToBytes | crates/continuations/src/commit_bytes.rs:133-139 | the padded bytes have the value of the digest |
| CommitBytes.TryNew | crates/continuations/src/commit_bytes.rs:26-33 | accepts exactly the byte arrays with value below `p^8`, unchanged |
| CommitBytes.FromDigest | crates/continuations/src/commit_bytes.rs:75-83 | panics exactly on a limb of `p` or more; otherwise the bytes are canonical and have the digest's value |
| CommitBytes.ToDigest | crates/continuations/src/commit_bytes.rs:85-93 | panics exactly on non-canonical bytes; otherwise the limbs are below `p` and have the value of the bytes |
| CommitBytes.DigestRoundTrip | crates/continuations/src/commit_bytes.rs:75-93 | digest to bytes to digest is the identity on digests with limbs below `p` |
| CommitBytes.BytesRoundTrip | crates/continuations/src/commit_bytes.rs:75-93 | bytes to digest to bytes is the identity on canonical bytes |
| CommitBytes.BytesToBn254 | crates/continuations/src/commit_bytes.rs:198-207 | the accumulation in the field gives the value of the bytes modulo the order |
| CommitBytes.FromBn254 | crates/continuations/src/commit_bytes.rs:180-215 | a scalar is a commitment exactly below `p^8`, with the same value; otherwise it panics |
| CommitBytes.Bn254RoundTrip | crates/continuations/src/commit_bytes.rs:180-215 | canonical bytes to scalar and back is the identity |
| EvmProof.ReverseChunks | crates/sdk/src/types.rs:215-219 | every 32-byte chunk is reversed in place |
| EvmProof.ToEvm | crates/sdk/src/types.rs:192-247 | succeeds exactly with more than 14 instances and two commit scalars below `p^8`; each part of the result represents its instances, the accumulator big-endian in chunks of 32 bytes |
| EvmProof.ToRaw | crates/sdk/src/types.rs:251-314 | succeeds exactly when the accumulator is whole chunks of canonical scalars, and the instances are rebuilt in order, chunk by chunk as big-endian numbers |
| EvmProof.RawRoundTrip | crates/sdk/src/types.rs:192-314 | raw to EVM to raw never fails at the second step and is the identity exactly when the user values are single bytes |
| EvmProof.WideUserValue | crates/sdk/src/types.rs:225-231 | a raw proof with a user value of 256 comes back changed |
| EvmProof.EvmRoundTrip | crates/sdk/src/types.rs:192-314 | EVM to raw to EVM is the identity exactly with twelve accumulator scalars and at least one user value |
| EvmProof.NoUserValues | crates/sdk/src/types.rs:196-200 | an EVM proof without user values converts to raw and is refused on the way back |

## Left out

Foreign code, taken as a parameter or by its contract:

- The compression function of SHA-2, Keccak-f and Poseidon2 are function parameters; the permutation is assumed to keep its width, the compression function the eight words of its state, and soundness of the Merkle check assumes an injective compression, an idealisation of collision resistance.
- `build_addition_chain` is not part of this model: a chain for an exponent is any well-formed chain that ends in it.
- `mac`, `adc` and `sbb` of the `ff` crate are defined by their double-word meaning, and the `byteorder` readers and writers by theirs.
- Primality of the modulus, and the generator being a non-residue, are what the macro asks of its caller; the model asks the same.

Weaker or different in form than the source:

- Montgomery.MontReduce: the temporaries `r0, r1, …` of the unrolled code are one sequence, and a temporary that the first row starts from a literal zero starts as a zero limb.
- FieldElement.Double: `x << 1 | bit` is written as an addition on numbers, which `WordBits.ShiftOrIsAdd` justifies.
- Sqrt.LimbConstants: build-time arithmetic on big integers is arithmetic on natural numbers.
- DeferralMerkle.VerifySound: memory is an arbitrary function from positions to digests; the dimensions are assumed to have room for the deferral address space (`addr_space_height >= 2`, `address_height >= 1`).
- DeferralMerkle.CheckDeferral: public values of the wrong length, a panic in the source, are excluded by its `requires`.
- HeapAdapters.OneInstruction: that the traced memory advances its clock by one for each access is an assumption (`TracingMemory.Traced`), since its code is not part of this model; timestamps are natural numbers, so the wrap-around of a 32-bit clock and of the field is not modelled; the in-place overlay of records and columns in `fill_trace_row`, the data values and `prev_data` are left out.
- HeapAdapters.RangeCheckIff: the shift of the filler is not truncated to 32 bits, which matters only for more than 24 shift bits.
- ContextTree.Run: a scope owns its children, so nodes are values; only the root held by the profiler is updated in place.
- Sha2.Hasher.Finalize: a failed checked operation is a false `ok` instead of a panic.

Not modelled:

- Macro plumbing: token streams, `syn`, struct validation, attribute parsing; `random`, `is_odd`, `PrimeFieldBits`, `Debug` and the operator forwarding impls.
- The zkvm branches that call `IntMod` intrinsics (apart from the byte comparison), and the k256 and p256 wrappers.
- `MultiProofVecVec`, the one-level case of the container without a nested index, and `poseidon2_hash_slice`, a loop over a foreign permutation.
- `filter`, `print` and the flamegraph output of the scope tree.
- `Display`, `serde` and codec implementations, `to_field_le_bytes`, and the version string of an EVM proof.
- The remaining commit comparisons of `verify_vm_stark_proof_pvs`, which compare one public value with one field of the key.
- STARK verification, Halo2 circuits, key generation, SDK, CLI, build scripts, CUDA, benchmarks and `crates/prof`.
