# Verification of the dci core

This project models the parts of the repository that carry its algorithms, and proves
properties of the models with Dafny 4.11. `dafny verify dfyconfig.toml` checks everything.

## What is modelled

- **X25519** (`curve25519.cpp`): field arithmetic in five 51-bit limbs with 128-bit sums, the
  Montgomery ladder with its rotating buffers, inversion, reading and writing. The main results
  are that `donna` writes the X25519 value of section 5 of RFC 7748 for every secret and every u
  (`Curve25519.Donna`), p prime being the only hypothesis, and that this value is the
  u-coordinate of the multiple of a point of v² = u³ + 486662u² + u or of its twist
  (`Montgomery.X25519OnCurve`). It includes that the 256th ladder step of the code is invisible,
  which section 5 of RFC 7748 does not have.
- **Ed25519** (`ed25519.cpp`): field arithmetic in ten limbs of 26 and 25 bits, scalars modulo l
  in signed 21-bit limbs, the sliding window and radix-16 recodings, the two multiplication
  schedules over an abstract abelian group, and key making, signing and verifying. The main
  results are the exact canonical residues (`Scalar.ScReduce`, `Scalar.ScMuladd`), the exact
  canonical encoding (`Fe10ToBytes.FeToBytes`), a·A + b·B (`PointMultiples.DoubleScalarmult`)
  and that every signature is accepted (`Ed25519.SignaturesAreAccepted`) and bound to its
  message by the challenge (`Ed25519.SignatureBinds`).
- **The update index** (`instance.cpp`): a catalog of releases, units and files addressed by
  hash, their serialization, a cached index of what the newest releases reach, its incremental
  maintenance, and garbage collection. The main results are that the maintained index equals the
  rebuilt one and all releases stay signed over every sequence of steps
  (`UpdateInstance.Instance.Replay`), that its sets are what chains of dependencies lead to
  (`UpdateChains.IndexIsTold`), that collecting garbage changes nothing anyone can see
  (`UpdateInstance.Instance.CollectGarbage`), and that objects are read back as written
  (`UpdateCodec.RoundTrip`), in a layout given byte by byte (`UpdateLayout`).
- **Punycode** (`dns.cpp`): the encoder of RFC 3492 on UTF-8 labels. The specification is the
  decoder of section 6.2, which is proved to give back the source code points from one text
  only (`Dns.CanonicalizePart`); published samples fix its constants.
- **Globs** (`fnmatch.cpp`), with no flags set: patterns are cut into tokens, a relation says
  which strings they describe, and the matcher is proved to decide it (`Fnmatch.FnMatch`). A
  language of written patterns, with a meaning of its own, is what the tokens are held against
  (`Fnmatch.MatchWritten`).

## How it is modelled

Integers are Dafny's unbounded ones. Variables of the code have subset types of the code's
width (`u64`, `i64`, `i32`, ...), so that an assignment verifies only if the value fits, or are
truncated explicitly (`Wrap64`, `Wrap128`) where the code relies on it. Shifts and masks are
written as multiplication, division and remainder by powers of two, and an `|` of disjoint bits
as a sum. Code that writes limbs and digits in place is a method on arrays; limbs that the code
keeps in local variables are reassigned sequences. Long functions of the code are split into one
method per stage, in the order of the code.

Field elements are residues (`Field25519`), and Fermat's theorem is proved from primality of p.
That the points of the Montgomery curve form a group under chord and tangent is a hypothesis
(`Montgomery.CurveGroup`); that the ladder's two formulas are its doubling and its addition is
proved. For Ed25519 the group of curve points, its tables, the encoding of points and decoding
with negation are hypotheses (`PointGroup.Abelian`, `Ed25519.IsCurve`), and SHA-512 is any
function to 64 bytes.
The hash of the update service and its check of a signed hash are any functions
(`UpdateInstance.Env`); a blob is read by functions on byte strings, an exception being no result.

## Where the code and its comments differ

- The comment on `fmul` allows limbs up to 16·2^51. Limbs within k·2^51 are multiplied correctly
  exactly for k up to 9 (`Curve25519Bound.FmulBound`), which is what the ladder keeps.
- The comment on `fe_tobytes` has the quotient in -1 .. 1, which holds exactly for bounds whose
  largest limbs stand for at most p (`Fe10ToBytes.QuotientConfined`). Its own bounds allow -2
  (`Fe10ToBytes.QuotientMinusTwo`). The bytes written are canonical all the same.
- `putCatalogObject` files an object under the hash of its own serialization, which need not be
  the announced id: sets are read in any order and with repetitions, and written ascending
  (`UpdateCodec.ListingCanonical`). The index is current afterwards exactly when that hash is the
  announced id, or nothing waits for it, or the object is a release
  (`UpdateInstance.Instance.PutCatalogObject`); a blob with which it is
  not current is given (`UpdateInstance.MisfiledExample`).
- `canonicalizePart` refuses high surrogates and numbers above 0x10FFFF; low surrogates pass
  (`Dns.LowSurrogatesPass`).
- `fnmatch` refuses a string that its pattern describes exactly when the pattern needs more than
  63 calls within calls (`Fnmatch.FnMatch`, `Fnmatch.BudgetExample`).
- `verify` looks at the top three bits of S, where section 5.1.7 of RFC 8032 asks for S < l
  (`Ed25519.RfcAcceptsLess`). A signature (R, S) that is accepted is accepted as (R, S + l) too,
  exactly when S + l is below 2^253 (`Ed25519.SecondForm`).

## Model

| member | source | states |
|---|---|---|
| Curve25519Limbs.CarryCorrect | source/core/crypto/src/curve25519.cpp:122-129 | the carry pass of `fmul` and `fsquare_times` keeps the element modulo p, loses no bit of a 64-bit carry and leaves limbs of at most 2^51, for columns up to a bound |
| Curve25519Limbs.FmulCorrect | source/core/crypto/src/curve25519.cpp:88-136 | for limbs up to 9·2^51 no 64- or 128-bit intermediate is truncated, the result is the product modulo p and its limbs are at most 2^51 |
| Curve25519Bound.FmulBound | source/core/crypto/src/curve25519.cpp:80-136 | for which k limbs within k·2^51 are multiplied correctly: exactly for k up to 9, where the comment on `fmul` allows 16 |
| Curve25519Limbs.FsquareCorrect | source/core/crypto/src/curve25519.cpp:151-174 | one squaring is the square modulo p, with the same bounds |
| Curve25519Limbs.FsumCorrect | source/core/crypto/src/curve25519.cpp:26-34 | limb-wise addition is addition modulo p |
| Curve25519Limbs.FdifferenceCorrect | source/core/crypto/src/curve25519.cpp:36-54 | adding a multiple of p first keeps every limb of the difference non-negative and within 9·2^51; the result is in - out modulo p |
| Curve25519Limbs.FscalarProductCorrect | source/core/crypto/src/curve25519.cpp:57-78 | multiplication by any scalar of up to 56 bits, with its limb bound |
| Curve25519Codec.ExpandCorrect | source/core/crypto/src/curve25519.cpp:211-220 | `fexpand` reads the little-endian number modulo 2^255 into limbs below 2^51 |
| Curve25519Codec.CanonicalCorrect | source/core/crypto/src/curve25519.cpp:226-273 | the passes of `fcontract` give the representative in [0, p), whatever the five 64-bit limbs |
| Curve25519Codec.ContractCorrect | source/core/crypto/src/curve25519.cpp:226-279 | `fcontract` writes the canonical 32 bytes of any five 64-bit limbs |
| Curve25519Codec.ContractExpand | source/core/crypto/src/curve25519.cpp:211-279 | writing what was read is the identity on canonical encodings |
| Curve25519.FscalarProduct | source/core/crypto/src/curve25519.cpp:57-78 | the array form, for the same scalars |
| Curve25519.Fmul | source/core/crypto/src/curve25519.cpp:88-136 | the array form: product modulo p and reduced limbs, also when the output is an input |
| Curve25519.FsquareTimes | source/core/crypto/src/curve25519.cpp:138-181 | the do-while loop squares count times, for every count of at least 1 |
| Curve25519.FdifferenceBackwards | source/core/crypto/src/curve25519.cpp:36-54 | the array form of the backward difference |
| Curve25519.Fmonty | source/core/crypto/src/curve25519.cpp:290-323 | one ladder step: (2Q, Q + Q') in x:z coordinates by the formulas of `Rfc7748.DoubleInNumbers` and `Rfc7748.AddDiffInNumbers`, in the bounds closed under the step |
| Curve25519.SwapConditional | source/core/crypto/src/curve25519.cpp:332-344 | exchanges the two elements exactly when the bit is set |
| Curve25519.LadderStep | source/core/crypto/src/curve25519.cpp:374-385 | swap, step, swap is one step of the ladder on the state of the four live buffers |
| Curve25519.ByteSteps | source/core/crypto/src/curve25519.cpp:372-401 | eight bits of a byte: the rotating pointers keep the live buffers equal to the abstract ladder state |
| Curve25519.Cmult | source/core/crypto/src/curve25519.cpp:352-406 | all 256 bits: the buffers hold the ladder of the whole scalar, with every limb reduced |
| Curve25519.Crecip | source/core/crypto/src/curve25519.cpp:412-439 | the addition chain is z^(p-2) |
| Curve25519.Fexpand | source/core/crypto/src/curve25519.cpp:211-220 | the array form of reading |
| Curve25519.Fcontract | source/core/crypto/src/curve25519.cpp:226-279 | the array form of writing |
| Curve25519.Donna | source/core/crypto/src/curve25519.cpp:443-463 | for every secret and every u, the bytes written are the X25519 value of section 5 of RFC 7748, p prime; `Montgomery.X25519OnCurve` says which point that is |
| Rfc7748.LazyIsEager | source/core/crypto/src/curve25519.cpp:374-402 | the ladder of RFC 7748, which swaps lazily, equals the one that swaps around every step |
| Rfc7748.StepScales | source/core/crypto/src/curve25519.cpp:370-402 | scaling the coordinates of the two points scales the result of a step |
| Rfc7748.ExtraStepIsInvisible | source/core/crypto/src/curve25519.cpp:370-402 | the 256th step of the code, on a zero bit, changes the quotient x·z^(p-2) of no scalar |
| Rfc7748.X25519ByEagerLadder | source/core/crypto/src/curve25519.cpp:443-463 | the RFC value equals the quotient of the code's 256-step ladder, u divisible by p included |
| Rfc7748.LadderMultiplies | source/core/crypto/src/curve25519.cpp:290-406 | over any family of points with the doubling and differential addition laws, the ladder state is (m·Q, (m+1)·Q) |
| Rfc7748.X25519Multiplies | source/core/crypto/src/curve25519.cpp:443-463 | over such a family the bytes written are the quotient of coordinates of k·Q, k the decoded scalar |
| Rfc7748.DecodedScalar | source/core/crypto/src/curve25519.cpp:450-453 | the clamped secret is 2^254 plus eight times the bits 3 to 253 of the number in its bytes |
| Rfc7748.DoubleInNumbers | source/core/crypto/src/curve25519.cpp:299-323 | doubling x:z gives (x² - z²)² : 4xz(x² + 486662xz + z²) modulo p |
| Rfc7748.AddDiffInNumbers | source/core/crypto/src/curve25519.cpp:301-318 | adding gives 4(x2·x3 - z2·z3)² : 4u(x2·z3 - z2·x3)² modulo p |
| Montgomery.TangentPoint | source/core/crypto/src/curve25519.cpp:299-323 | the identity behind doubling: 4(u³ + 486662u² + u) times the u-coordinate of 2Q is (u² - 1)² |
| Montgomery.ChordSame | source/core/crypto/src/curve25519.cpp:301-318 | the identity behind addition: (u3 - u2)² times the u-coordinates of sum and difference is (u2·u3 - 1)², both sides times (u3 - u2)² |
| Montgomery.DoublingRepresents | source/core/crypto/src/curve25519.cpp:299-323 | on every curve b·v² = u³ + 486662u² + u the doubling formula gives coordinates of Q + Q by the tangent, infinity and v = 0 included |
| Montgomery.AdditionRepresents | source/core/crypto/src/curve25519.cpp:290-323 | on these curves the addition formula gives coordinates of Q + Q' by the chord, given the nonzero u-coordinate of Q' - Q; equal, opposite and infinite points included |
| Montgomery.ZeroU | source/core/crypto/src/curve25519.cpp:443-463 | the point of u = 0 has order two, so even multiples of it are infinity |
| Montgomery.X25519OnCurve | source/core/crypto/src/curve25519.cpp:443-463 | X25519 in numbers: for n = 2^254 + 8·(LE(secret) div 8 mod 2^251) and a point Q of u-coordinate (LE(u) mod 2^255) mod p, the 32 bytes are the u-coordinate of n·Q, zero for infinity, u = 0 included |
| Montgomery.EveryU | source/core/crypto/src/curve25519.cpp:443-463 | every u is the coordinate of a point of one of these curves |
| Fermat.LittleTheorem | source/core/crypto/src/curve25519.cpp:408-439 | a^(p-1) = 1 for a prime p and a not zero, proved from primality alone |
| Fermat.QuotientIgnoresScale | source/core/crypto/src/curve25519.cpp:443-463 | x·z^(p-2) does not change when both are scaled |
| Fe10.ColumnsValue | source/core/crypto/src/ed25519.cpp:643-752 | the ten sums of `fe_mul` stand for the product modulo p, for all limbs |
| Fe10.SquareColumnsAgree | source/core/crypto/src/ed25519.cpp:1112-1121 | the ten sums of `fe_sq` are those of `fe_mul` for equal operands |
| Fe10Carry.MulFits | source/core/crypto/src/ed25519.cpp:608-752 | within 1.65·2^26 and 1.65·2^25 every factor of `fe_mul` fits in 32 bits, every product and every running sum of its ten sums in 64 |
| Fe10Carry.SquareFits | source/core/crypto/src/ed25519.cpp:1030-1121 | the same of `fe_sq`, with its own products and sums |
| Fe10Carry.CarryChain | source/core/crypto/src/ed25519.cpp:764-805 | the twelve carries keep the element and leave limbs within 1.01·2^25 and 1.01·2^24 |
| Fe10Field.FeMul | source/core/crypto/src/ed25519.cpp:578-817 | product modulo p within the stated bounds, also when the output is an operand |
| Fe10Field.FeSq | source/core/crypto/src/ed25519.cpp:1016-1178 | square modulo p within the stated bounds |
| Fe10Field.FeInvert | source/core/crypto/src/ed25519.cpp:416-500 | the chain is z^(p-2), with the bounds kept through every squaring loop |
| Fe10Field.FePow22523 | source/core/crypto/src/ed25519.cpp:932-1015 | the chain is z^(2^252-3) |
| Fe10Codec.LoadValue | source/core/crypto/src/ed25519.cpp:350-359 | the words read stand for the little-endian number modulo 2^255 |
| Fe10Codec.FeFromBytes | source/core/crypto/src/ed25519.cpp:345-412 | the element of the 255 low bits, in reduced limbs |
| Fe10ToBytes.EstimateExact | source/core/crypto/src/ed25519.cpp:1412-1469 | the quotient estimated from the top limb is the exact floor of h / p, for all limbs within 1.1·2^26 and 1.1·2^25 |
| Fe10ToBytes.QuotientConfined | source/core/crypto/src/ed25519.cpp:1412-1435 | for which bounds on the limbs the quotient stays within -1 .. 1, as the comment argues: exactly when the largest limbs allowed stand for at most p |
| Fe10ToBytes.QuotientMinusTwo | source/core/crypto/src/ed25519.cpp:1412-1435 | the bounds of the comment are not of that kind: -2 occurs |
| Fe10ToBytes.FeToBytes | source/core/crypto/src/ed25519.cpp:1412-1542 | writes the unique canonical encoding of the element |
| Fe10ToBytes.ReadThenWrite | source/core/crypto/src/ed25519.cpp:345-412 | `fe_tobytes` after `fe_frombytes` gives (LE(s) mod 2^255) mod p for every 32 bytes |
| ScalarLimbs.FoldValue | source/core/crypto/src/ed25519.cpp:3556-3562 | folding limb i changes the value by a multiple of l only |
| ScalarLimbs.CarryValue | source/core/crypto/src/ed25519.cpp:3598-3600 | a carry of any size keeps the value |
| ScalarBytes.Load24Value | source/core/crypto/src/ed25519.cpp:3514-3537 | the 24 limbs read stand for the 512-bit number |
| ScalarBytes.Load12Value | source/core/crypto/src/ed25519.cpp:3841-3852 | the 12 limbs read stand for the 256-bit number |
| ScalarBytes.Store12Encodes | source/core/crypto/src/ed25519.cpp:3793-3824 | the 32 bytes written are the little-endian encoding of the limbs |
| ScalarProduct.ColumnsValue | source/core/crypto/src/ed25519.cpp:3925-3948 | the 23 column sums stand for a·b + c |
| ScalarProduct.ColumnsBounded | source/core/crypto/src/ed25519.cpp:3925-3948 | no column reaches 2^54 |
| Scalar.FoldIn | source/core/crypto/src/ed25519.cpp:3556-3597 | one fold on 64-bit limbs: congruent modulo l, no overflow, bounds |
| Scalar.Round | source/core/crypto/src/ed25519.cpp:3598-3630 | one rounding carry |
| Scalar.RoundLow | source/core/crypto/src/ed25519.cpp:3673-3708 | after the rounding pass limb 11 is within 2^20 and limb 12 small |
| Scalar.FoldTop | source/core/crypto/src/ed25519.cpp:3709-3715 | the fold that follows leaves a value between -2^252 and 2^252 |
| Scalar.FoldLast | source/core/crypto/src/ed25519.cpp:3752-3758 | the last carry out is -1 or 0 and folding it gives the residue |
| Scalar.ReduceLimbs | source/core/crypto/src/ed25519.cpp:3556-3791 | all folds and carries together: the canonical residue modulo l, without overflow |
| Scalar.ScReduce | source/core/crypto/src/ed25519.cpp:3513-3825 | overwrites the first 32 of 64 bytes with the residue in [0, l) |
| Scalar.ScMuladd | source/core/crypto/src/ed25519.cpp:3827-4287 | writes (a·b + c) mod l in [0, l) for all 256-bit a, b, c |
| SlidingWindow.CarryFrom | source/core/crypto/src/ed25519.cpp:3053-3060 | the inner carry loop adds 1 to the bits from a place on, or clears them when they are all ones |
| SlidingWindow.TakeBit | source/core/crypto/src/ed25519.cpp:3047-3049 | taking a bit into the digit keeps the value and the digit within 15 |
| SlidingWindow.RoomForCarry | source/core/crypto/src/ed25519.cpp:3050-3060 | below 2^255 the carry of a subtraction does not fall off position 255 |
| SlidingWindow.Widen | source/core/crypto/src/ed25519.cpp:3044-3066 | the work at one digit: odd, within 15, four zeros behind; the value is kept, or a carry is lost and nothing is left above |
| SlidingWindow.Slide | source/core/crypto/src/ed25519.cpp:3034-3067 | nonzero digits are odd, within [-15, 15] and at least 5 apart; they sum to the scalar, or to 2^256 less when a carry falls off the end, which none does below 2^255 |
| PointMultiples.OddTable | source/core/crypto/src/ed25519.cpp:3086-3109 | the table holds A, 3A, ..., 15A |
| PointMultiples.AddDigit | source/core/crypto/src/ed25519.cpp:3121-3135 | the digit d adds d times the point by odd-multiple indexing |
| PointMultiples.Accumulate | source/core/crypto/src/ed25519.cpp:3110-3138 | the main loop computes a·A + b·B from the digits |
| PointMultiples.DoubleScalarmult | source/core/crypto/src/ed25519.cpp:3069-3139 | a·A + b·B for a, b < 2^255 over any abelian group |
| Radix16.Recode | source/core/crypto/src/ed25519.cpp:3395-3412 | 64 digits from -8 to 8 that sum to the scalar |
| Radix16.EvenAndOdd | source/core/crypto/src/ed25519.cpp:3413-3434 | even digits plus 16 times odd digits is the scalar |
| PointMultiples.Select | source/core/crypto/src/ed25519.cpp:3357-3376 | b·256^pos·B for every b from -8 to 8 |
| PointMultiples.ScalarmultBase | source/core/crypto/src/ed25519.cpp:3378-3435 | a·B for a[31] <= 127 over any abelian group with the table |
| PointGroup.MulSum | source/core/crypto/src/ed25519.cpp:3069-3139 | multiples add, negative factors included |
| PointGroup.MulMod | source/core/crypto/src/ed25519.cpp:4339-4349 | multiples of a point of order l depend on the factor modulo l only |
| Ed25519.Sha512.Add | source/core/crypto/src/ed25519.cpp:4335-4336 | the hash object collects what is added since it last finished |
| Ed25519.Sha512.Finish | source/core/crypto/src/ed25519.cpp:4337-4337 | gives the digest of that and starts afresh |
| Ed25519.MkPublic | source/core/crypto/src/ed25519.cpp:4294-4311 | the key of section 5.1.5 of RFC 8032: A = s·B encoded, s = 2^254 plus eight times bits 3 to 253 of the first half of the digest of the secret |
| Ed25519.Sign | source/core/crypto/src/ed25519.cpp:4314-4350 | the signature of section 5.1.6 of RFC 8032, with the inputs of both hashes written out: r from second half and message, k from R, A and message, S = (k·s + r) mod l |
| Ed25519.Verify | source/core/crypto/src/ed25519.cpp:4353-4392 | true exactly when the top three bits of S are clear, the key decodes and S·B - k·A encodes to R, k being the digest of R, A and the message modulo l, written out |
| Ed25519.SignatureBinds | source/core/crypto/src/ed25519.cpp:4353-4392 | a signature accepted for two messages under one key has the same challenge multiple of the key for both digests of R, A and message |
| Ed25519.SignatureOfOneMessage | source/core/crypto/src/ed25519.cpp:4353-4392 | when no smaller multiple than l of the key is zero, both digests of R, A and message are the same modulo l |
| Ed25519.ResponseCancels | source/core/crypto/src/ed25519.cpp:4348-4392 | k·(-s·B) + ((k·s + r) mod l)·B = r·B when l·B = 0 |
| Ed25519.SignaturesAreAccepted | source/core/crypto/src/ed25519.cpp:4314-4392 | every signature is accepted under the key of its secret |
| Ed25519.SignThenVerify | source/core/crypto/src/ed25519.cpp:4294-4392 | the same of the three functions in sequence |
| Ed25519.RfcAcceptsLess | source/core/crypto/src/ed25519.cpp:4353-4392 | section 5.1.7 of RFC 8032 accepts what the code accepts with S < l |
| Ed25519.SameResidue | source/core/crypto/src/ed25519.cpp:4353-4392 | an accepted signature stays accepted with another S of the same residue modulo l exactly when that is below 2^253 |
| Ed25519.SecondForm | source/core/crypto/src/ed25519.cpp:4353-4392 | a signature that the RFC accepts has a second form, with S + l, that the code accepts exactly when S + l is below 2^253 and that the RFC refuses |
| Archive.RawSmallOf | source/core/stiac/include/dci/stiac/serialization/smallUnsigned.hpp:25-115 | a number written seven bits a byte, each following byte counting from one more, is read back, whatever follows |
| UpdateLayout.OneByteForm | source/core/stiac/include/dci/stiac/serialization/smallUnsigned.hpp:25-44 | numbers below 128 are one byte |
| UpdateLayout.LongerForms | source/core/stiac/include/dci/stiac/serialization/smallUnsigned.hpp:25-44 | the bytes of 128, 16511, 16512 and 2^32 - 1: the borrow of one for every byte that follows |
| Archive.Small32 | source/core/stiac/include/dci/stiac/serialization/smallUnsigned.hpp:25-115 | every 32-bit number is read back from its five bytes at most |
| Archive.Small64 | source/core/stiac/include/dci/stiac/serialization/smallUnsigned.hpp:25-115 | every 64-bit number is read back from its nine bytes at most |
| Archive.SmallInt | source/core/stiac/include/dci/stiac/serialization/smallSigned.hpp:24-77 | every signed 32-bit number is read back |
| Archive.ListRead | source/core/stiac/include/dci/stiac/serialization/set.hpp:45-64 | elements in any order and repeated are read as the set of them |
| Archive.SetRead | source/core/stiac/include/dci/stiac/serialization/set.hpp:20-64 | a set written in ascending order is read back, over any total order |
| Archive.BeforeIsOrder | source/core/stiac/include/dci/stiac/serialization/set.hpp:20-28 | strings are written in a total order |
| UpdateCodec.RoundTrip | source/core/aup/src/impl/catalog/enumerateObjectFields.hpp:23-70 | every object whose lengths fit in 32 bits is read back from its serialization |
| UpdateCodec.LoadedIsEncodable | source/core/aup/src/impl/catalog/deserializeObject.hpp:19-68 | whatever was read can be written and read again, as the same object |
| UpdateCodec.ListingRead | source/core/aup/src/impl/catalog/deserializeObject.hpp:19-68 | a blob that lists the dependencies of an object in any order, repetitions included, holds that object |
| UpdateCodec.ListingCanonical | source/core/aup/src/impl/catalog/serializeObject.hpp:18-25 | such a blob is the serialization of the object exactly when the list ascends |
| UpdateLayout.SetLayout | source/core/stiac/include/dci/stiac/serialization/set.hpp:20-43 | a set is its size and its elements in ascending order |
| UpdateLayout.OrderOfBytes | source/core/stiac/include/dci/stiac/serialization/set.hpp:20-43 | that order compares byte by byte, a prefix first |
| UpdateLayout.ObjectLayout | source/core/aup/src/impl/catalog/serializeObject.hpp:18-25 | the first byte: 2 for a file, 4 for a unit, 6 for a release |
| UpdateLayout.FileLayout | source/core/aup/src/impl/catalog/enumerateObjectFields.hpp:23-70 | the fields of a file, in their order, and the bytes of each |
| UpdateLayout.UnitLayout | source/core/aup/src/impl/catalog/enumerateObjectFields.hpp:23-70 | the same of a unit |
| UpdateLayout.ReleaseLayout | source/core/aup/src/impl/catalog/enumerateObjectFields.hpp:23-70 | the same of a release, whose signature is its last 64 bytes |
| UpdateCatalog.ReachIsClosed | source/core/aup/src/instance.cpp:1106-1162 | what is reached is closed under matching present dependencies |
| UpdateCatalog.ReachIsLeast | source/core/aup/src/instance.cpp:1106-1162 | it is the least closed set that holds the live roots |
| UpdateIndex.ExactSets | source/core/aup/src/instance.cpp:1106-1162 | sets that hold the roots, have handled what they hold and hold nothing else are the specified ones |
| UpdateIndex.SpecSetsAreExact | source/core/aup/src/instance.cpp:1106-1162 | the specified sets have these properties |
| UpdateTraversal.Collector.Collect | source/core/aup/src/instance.cpp:1106-1162 | the recursive traversal terminates on every finite catalog, cycles included, and records exactly what it must |
| UpdateInstance.Instance.CollectMostReleases | source/core/aup/src/instance.cpp:1038-1103 | the newest matching release of every line, ties to the first id |
| UpdateInstance.Instance.BuildIndex | source/core/aup/src/instance.cpp:1002-1035 | the rebuilt index is the specified one: reachability, stops, absences, contents by presence; its sets are told by chains of dependencies |
| UpdateChains.IndexIsTold | source/core/aup/src/instance.cpp:1002-1162 | an object is complete exactly when it is present and a chain of accepted dependencies from a newest accepted release ends in it or before it; incomplete when absent and such a chain ends before it; contents likewise by storage |
| UpdateChains.NewestAre | source/core/aup/src/instance.cpp:1038-1103 | the releases to start from: accepted, none newer of their line, the least id among equally new |
| UpdateInstance.BestOfNext | source/core/aup/src/instance.cpp:1062-1094 | looking at one more release keeps every line's representative |
| UpdateSteps.ReachMonotone | source/core/aup/src/instance.cpp:851-954 | more objects reach no less |
| UpdateSteps.UnawaitedObject | source/core/aup/src/instance.cpp:851-954 | an object nothing waits for leaves the specified sets as they are |
| UpdateSteps.AwaitedObject | source/core/aup/src/instance.cpp:851-954 | an awaited object: the old sets without it, united with the delta collected from it, are the new specified sets |
| UpdateSteps.StoredContent | source/core/aup/src/instance.cpp:957-999 | a stored content moves from incomplete to complete and changes nothing else |
| UpdateInstance.Instance.UpdateIndexAfterCatalogObjectComplete | source/core/aup/src/instance.cpp:851-954 | the incremental update equals the rebuild |
| UpdateInstance.Instance.UpdateIndexAfterStorageObjectComplete | source/core/aup/src/instance.cpp:957-999 | the incremental update equals the rebuild |
| UpdateInstance.Instance.PutCatalogObject | source/core/aup/src/instance.cpp:431-486 | the verdict, with each answer also in terms of hash, signature check and what is waited for; the new catalog, whose releases all stay signed; that the index stays current for every blob that has the hash of its object, and for the others when exactly it does |
| UpdateInstance.ListingIsCanonical | source/core/aup/src/instance.cpp:431-486 | a blob that lists the dependencies in some order has the hash of its object exactly when the order is ascending, for a hash that tells it from the serialization |
| UpdateInstance.SerializedIsCanonical | source/core/aup/src/instance.cpp:431-486 | what an honest client sends, the serialization of an object, has the hash of its object |
| UpdateInstance.Instance.MisfiledObject | source/core/aup/src/instance.cpp:431-486 | an object filed under another id than the announced one: current exactly when nothing waits for that other id |
| UpdateInstance.MisfiledExample | source/core/aup/src/instance.cpp:431-486 | a unit whose two dependencies are listed in descending order is accepted and leaves the index out of date, for every hash that tells the blobs apart |
| UpdateInstance.Instance.PutStorageObject | source/core/aup/src/instance.cpp:489-505 | the verdict, also as: a reached file has this content and it is not stored; the new storage; that the index stays current |
| UpdateGarbage.Requireds.Collect | source/core/aup/src/instance.cpp:638-693 | the recursive walk terminates and keeps what it must |
| UpdateGarbage.WalkIsExact | source/core/aup/src/instance.cpp:638-693 | walking from every release collects exactly the required ids and contents |
| UpdateGarbage.DroppingIsInvisible | source/core/aup/src/instance.cpp:224-247 | the specified sets of what is left are those of what was there |
| UpdateGarbage.DroppingIsIdempotent | source/core/aup/src/instance.cpp:224-247 | what is left requires all of itself |
| UpdateChains.RequiredAreNeeded | source/core/aup/src/instance.cpp:638-693 | required are all releases, what accepted objects lead to from any of them and the dependencies of those |
| UpdateInstance.Instance.CollectGarbage | source/core/aup/src/instance.cpp:224-247 | exactly the needed objects and contents are kept; the index becomes what a rebuild would have given before, so a current one does not change; releases and indexed-complete objects and contents stay, and signed ones stay signed; a second collection drops nothing |
| UpdateInstance.Instance.Replay | source/core/aup/src/instance.cpp:431-505 | over every sequence of puts and collections, with blobs that have the hash of their object, the maintained index equals the rebuilt one and every release filed has a signature that the check of signed hashes accepts |
| Utf8.PointsOfUtf8 | source/core/utils/src/dns.cpp:18-72 | well-formed UTF-8 of section 3 of RFC 3629 without a zero is read as the code points written, and nothing behind it is read |
| Utf8.GreekExample | source/core/utils/src/dns.cpp:18-72 | the first example of section 7 of RFC 3629 |
| Utf8.KoreanExample | source/core/utils/src/dns.cpp:18-72 | the second |
| Utf8.JapaneseExample | source/core/utils/src/dns.cpp:18-72 | the third, and the four bytes of U+233B4 |
| Dns.Utf8Traversor.Advance | source/core/utils/src/dns.cpp:30-66 | returns the next code point and moves past it, or zero at the end; a text that ends in a head byte is read one byte further |
| Dns.EncodeDigit | source/core/utils/src/dns.cpp:95-98 | the digit of section 5 of RFC 3492, which decodes to its value |
| Dns.AdaptBias | source/core/utils/src/dns.cpp:100-110 | the bias adaptation of section 6.1 of RFC 3492, within 64 bits, in numbers: 700 and 2, then 455, 35, 36 and 38 |
| PunycodeSamples.AdaptIs | source/core/utils/src/dns.cpp:100-110 | the same of the specified adaptation |
| PunycodeUnique.IntUnique | source/core/utils/src/dns.cpp:188-198 | two written integers that decode to the same are the same bytes |
| PunycodeUnique.DecodeUnique | source/core/utils/src/dns.cpp:150-206 | two lower-case labels that decode to the same text are the same bytes |
| PunycodeSamples.TwoPoints | source/core/utils/src/dns.cpp:150-206 | the digits of a label of two non-basic code points, in numbers, are the label that decodes to them |
| Dns.EmitInt | source/core/utils/src/dns.cpp:188-198 | writes the variable-length integer of section 3.3 of RFC 3492 for every delta and bias; neither q nor k leaves 64 bits |
| Punycode.IntRoundTrip | source/core/utils/src/dns.cpp:188-198 | reading a variable-length integer back gives it and leaves the rest |
| Punycode.DelimiterFound | source/core/utils/src/dns.cpp:163-172 | the last delimiter of the output is the one the encoder wrote |
| PunycodeOrder.PassLess | source/core/utils/src/dns.cpp:183-184 | a smaller code point is one place further for the decoder |
| PunycodeOrder.PassEnds | source/core/utils/src/dns.cpp:205-205 | the step to the next n keeps the distance |
| PunycodeOrder.PassEqual | source/core/utils/src/dns.cpp:183-203 | having read delta, the decoder inserts the code point exactly where it is in the source |
| PunycodeOrder.Jump | source/core/utils/src/dns.cpp:177-178 | skipping to the next code point adds a full round of places for each value skipped |
| PunycodeOrder.DeltaBounded | source/core/utils/src/dns.cpp:177-184 | delta stays below 0x110000·(n + 1) for a label of n code points |
| PunycodeOrder.ReachesFurther | source/core/utils/src/dns.cpp:188-198 | appending a delta moves the decoder by one insertion, whatever follows |
| PunycodeOrder.LabelDecodes | source/core/utils/src/dns.cpp:148-206 | the whole output decodes to what the decoder has reached |
| Dns.CountPoints | source/core/utils/src/dns.cpp:117-132 | the first pass: bad input, basic code points, capitals |
| Dns.FindNext | source/core/utils/src/dns.cpp:158-175 | the least code point from n on; the first search writes the basic ones and the delimiter |
| Dns.EncodePass | source/core/utils/src/dns.cpp:180-203 | one pass encodes every occurrence of n and keeps the decoder in step |
| Dns.EncodeLabel | source/core/utils/src/dns.cpp:150-206 | terminates, and what it appends decodes to the source in lower case |
| Dns.CanonicalizePart | source/core/utils/src/dns.cpp:115-209 | the verdict for every text; the output decodes under section 6.2 of RFC 3492 to the source code points with A-Z lower-cased, and is the only lower-case text that does |
| Dns.CanonicalizeEncoded | source/core/utils/src/dns.cpp:115-209 | the same for well-formed UTF-8, in terms of the code points written and numbers |
| Dns.CanonicalizeTwo | source/core/utils/src/dns.cpp:115-209 | for every two non-basic code points the bytes appended, in numbers |
| Dns.CanonicalizeIdeographs | source/core/utils/src/dns.cpp:115-209 | the bytes of U+4E2D U+56FD become xn--fiqs8s |
| Dns.CanonicalizeChinese | source/core/utils/src/dns.cpp:115-209 | sample (C) of section 7.1 of RFC 3492 |
| Dns.CanonicalizeYear | source/core/utils/src/dns.cpp:115-209 | sample (L) of that section, which mixes basic code points, a capital and others |
| Dns.LowSurrogatesPass | source/core/utils/src/dns.cpp:124-131 | every low surrogate is encoded, such as the bytes ED B0 80 |
| Fnmatch.ReadItem | source/core/utils/src/fnmatch.cpp:95-117 | one character or range of a bracket, quoted ends included |
| Fnmatch.RangeMatch | source/core/utils/src/fnmatch.cpp:70-121 | membership, negation, the place behind the bracket, and an error exactly when it is not closed |
| Fnmatch.FindSlash | source/core/utils/src/fnmatch.cpp:124-133 | the first slash of either kind |
| Fnmatch.MatchOne | source/core/utils/src/fnmatch.cpp:152-258 | a literal, question mark or bracket against one character |
| Fnmatch.MatchAnyString | source/core/utils/src/fnmatch.cpp:209-220 | a star: some suffix matches the rest, within the budget |
| Fnmatch.MatchFolders | source/core/utils/src/fnmatch.cpp:169-188 | two stars and a slash: the rest matches here or behind some slash |
| Fnmatch.MatchStar | source/core/utils/src/fnmatch.cpp:163-220 | the four cases of a star: two at the end, two before a slash, two before anything else, one |
| Fnmatch.FnmatchX | source/core/utils/src/fnmatch.cpp:136-261 | zero exactly when the tokens match and need fewer calls than there are; running out is reported only when they need more |
| Fnmatch.FnMatch | source/core/utils/src/fnmatch.cpp:265-268 | true exactly when the pattern describes the string and needs at most 63 calls within calls; for patterns of at most 63 stars, exactly when it describes the string |
| Fnmatch.MatchWritten | source/core/utils/src/fnmatch.cpp:265-268 | for every pattern written from characters, question marks, lists with or without negation, stars and folders, in character codes: true exactly when what was written describes the string and nests at most 63 deep |
| Fnmatch.MatchBracket | source/core/utils/src/fnmatch.cpp:70-121 | [c] and [!c] on one character x: true exactly for x = c and for x != c |
| GlobLanguage.WrittenIsRead | source/core/utils/src/fnmatch.cpp:70-261 | a written pattern is cut back into its pieces |
| GlobLanguage.SameMeaning | source/core/utils/src/fnmatch.cpp:136-261 | the tokens describe what was written |
| GlobLanguage.Unclosed | source/core/utils/src/fnmatch.cpp:231-254 | an opening bracket that no closing one follows stands for itself |
| GlobLanguage.StarsRefuse | source/core/utils/src/fnmatch.cpp:169-176 | two stars before anything but a slash describe nothing |
| Fnmatch.DepthWithinStars | source/core/utils/src/fnmatch.cpp:143-144 | at most 63 stars never exhaust the budget |
| Fnmatch.BudgetExample | source/core/utils/src/fnmatch.cpp:265-268 | a pattern of 64 stars that describes a string and is refused |
| Glob.NotAtEnd | source/core/utils/src/fnmatch.cpp:209-220 | what follows a star does not match the empty rest, so the loop need not try it |

## Left out

- Curve25519.SwapConditional: the exclusive-or masking is modelled by the values it leaves; that the time taken does not depend on the bit is not stated.
- PointMultiples.Select: `cmov` is modelled by the value it leaves.
- PointMultiples.DoubleScalarmult: the coordinate formulas (`ge_add`, `ge_madd`, `ge_p3_dbl` and the others) and the conversions between coordinate forms are group operations here; their formulas are not checked.
- SlidingWindow.Slide: for scalars of 2^255 and more the digits sum to the scalar or to 2^256 less; which of the two is not stated. No caller has such a scalar.
- Montgomery.X25519OnCurve: that chord and tangent are associative on the curve is a hypothesis.
- Ed25519.SignThenVerify: decompression of points (`ge_frombytes_negate_vartime`) is a hypothesis: it gives the negative of the point that was encoded.
- UpdateInstance.Instance.Replay: every blob put has the hash of the object it holds, without which the index need not stay current; `PutCatalogObject` says when it does.
- Archive.SetRead: archives are values here, a list of bytes written and one read; the buffers in pieces behind them are not modelled.
- UpdateInstance.Instance.PutStorageObject: the overload that reads from a file is the same step and is not repeated.
- Dns.CanonicalizePart: labels have fewer than 2^43 - 1 code points, which keeps delta in 64 bits. The byte behind the text, which is read when the text ends in a byte announcing more, is a parameter.
- `canonicalize` of a whole domain: splitting at dots and the check for addresses, which goes through `uri.cpp`.
- `fnmatch` with flags: paths, periods, leading directories and folding case.
- `instance.cpp`: importing, which writes the catalog and storage before indexing again, signals to listeners and the changes they are told of, the save ticker, logging and files. `Criteria::match` is any predicate on objects; catalog and storage are finite maps, and dropping keeps exactly the given set.
- `Applier`, the other wrappers of the crypto library, sockets and user interface: they forward to code that is not part of this model.
- Primality of p and the contents of the tables `Bi` and `base` are hypotheses; that l is prime is not used.
