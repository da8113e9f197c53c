# Post-quantum arithmetic, masking and codecs: a Dafny model

A model of the package's native cryptographic core and of the places where a fast, in-place or masked
form has to agree with a plain one. Machine words are sequences of bits, bytes are numbers below 256,
C integers are unbounded integers with their ranges stated, and a source of randomness is an arbitrary
stream, so every statement about a masked computation is a statement about every stream.

- **Masked gadgets.** `MaskedGadgets`, `MaskedConversions`, `MaskedDsa`, `MaskedNoise`, `MaskedVectors`,
  `Keccak`, `KeccakSponge`, `MaskedKeccak`: each gadget of two-share code is proved to unmask to its plain
  function, up to the sponge on shares. `Fips202` and `Fips202Sponge` state the permutation and the sponge on
  bits as FIPS 202 does, offsets and constants included, and prove the lane and byte forms equal to them.
- **ML-DSA** (FIPS 204). `MlDsaArith` to `MlDsaSignMasked`: the reductions and transforms on 32-bit
  integers, rounding and hints, the packings, and the signer as a function of key and message bytes that
  the plain and the masked code both compute. What it signs, verification accepts. `MlDsaLaws` says in the
  ring what an accepted signature is, when the signer succeeds and what a key is; the challenge sampler is
  `MlDsaChallenge`, and `ChallengeSupport` counts the byte sequences behind each set of positions.
- **ML-KEM** (FIPS 203). `MlKemArith` to `MlKemDecapsMasked`: the same on 16-bit integers, compression
  and its cyclic intervals, encryption, decryption, and decapsulation by the plain and by the masked code.
  `MlKemKeys`, `MlKemCorrect` and `MlKemRoundTrip` add key generation, encapsulation and the exact
  condition under which an honest ciphertext decrypts; `MlKemLaws` says what decapsulation returns on every
  ciphertext. `TransformPoints` says what both transforms are, as values and residues at the powers of a root.
- **HQC.** `GaloisField` to `HqcSamplers`: GF(2^8) and its tables, the additive FFT, the Reed-Solomon
  encoder and syndromes, the Reed-Muller decoder and why its answer is nearest (`ReedMullerNearest`),
  carry-less multiplication, Karatsuba over words and the fixed-weight samplers.
- **Merkle trees, DER, bounded draws.** `MerkleTree`, `DerEncoding`, `DerParser`, `DerLaws`, `BoundedDraw`.
  `EvenDraws` counts, for every sampler, how much of its randomness stands for each result.

`ModArith`, `Bits`, `Radix`, `BitCursor`, `Options`, `NttTree`, `NegacyclicRing`, `ZetaTree`, `NttLoop`,
`TreeProduct`, `FieldPoly` and `BinaryPoly` are the mathematics the rest stands on. A code file that changes
buffers in place is modelled by methods on arrays, proved against specification functions; a cursor, a
random stream, a sponge and an accumulator are classes.

Three statements of the source are off at the edge, and the contracts say exactly where:

- `src/rmbl_mldsa_core.h:58` promises `-q < r < q` for `|a| <= 2^31 q`. At `a = 2^31 q`, and nowhere else in
  that range, the result is `q` (`MontgomeryContract`, `MontgomeryAtTop`).
- `src/rmbl_mldsa_core.h:65` promises `|r| <= 6283008` for `a <= 2^31 - 2^22 - 1`. At `a = -2143289344`, and
  nowhere else in that range, the result is `-6283009` (`Reduce32Contract`, `Reduce32AtBottom`).
- `src/rmbl_hqc_core.h:1195-1196` promises `r mod (N - i)`. The steps give it for every 32-bit word unless
  `N - i = 1`, where they give it only for the words 0 and 1 (`ReduceIs`); no weight in use reaches that.

Scheme 1 of the Merkle tree, kept for old roots, gives one root to two different chunk lists
(`SchemeOneAmbiguous`). Two lists with one root under scheme 2 are the same list, or two different inputs that
the two trees hash have one digest (`EqualRoots`); scheme 1 promises this of lists of one length and of lists
without a 64-byte chunk (`EqualRootsOne`).

## Model

| member | source | states |
|---|---|---|
| MaskedGadgets.MAnd | src/rmbl_masked.h:330-338 | the two result shares unmask to the AND of the operands in every lane, for every random word |
| MaskedGadgets.MAndFresh | src/rmbl_masked.h:330-338 | one share is the fresh word and the other hides the product behind it: whatever the operands, it takes each value for exactly one word |
| MaskedGadgets.BooleanOfShare | src/rmbl_masked.h:874-888 | the words unmask to the residues mod 2^bits, and one share is the next words of the stream |
| MaskedGadgets.SecAdd | src/rmbl_masked.h:895-907 | every lane unmasks to the sum mod 2^bits, for every stream; share 0 of each word is that of the operands behind the fresh words of the carry; the words above stay clear |
| MaskedGadgets.SecAddPublic | src/rmbl_masked.h:911-925 | a public addend, negative ones included, is added mod 2^bits in every lane |
| MaskedGadgets.SecLess | src/rmbl_masked.h:931-943 | the shared bit is x < c in every lane, for x and c below 2^(bits - 1) |
| MaskedGadgets.SecSelect | src/rmbl_masked.h:956-964 | every lane is x where the shared bit is set and y where it is clear; share 0 of each word is y's behind a fresh word of the stream |
| MaskedGadgets.SecReduceQ | src/rmbl_masked.h:967-975 | every lane below 2q comes out reduced mod q |
| MaskedConversions.RandMod | src/rmbl_masked.h:72-77 | the value is floor(u q / 2^64) for the 64-bit word u of two draws, so it is below q, and the stream moves by two words |
| EvenDraws.ResiduesAreEven | src/rmbl_masked.h:72-77 | each of the q residues is drawn by floor or ceiling of 2^64 / q of the 64-bit numbers |
| MaskedConversions.SecInInterval | src/rmbl_masked.h:1010-1032 | the shared bit says whether the unmasked residue lies in the cyclic interval of width w from lo, for every pair of shares and stream |
| MaskedConversions.SecDecode1 | src/rmbl_masked.h:992-1006 | the shared bit is the message bit of the unmasked residue: 1 exactly between 833 and 2496 |
| MaskedConversions.SecB2A | src/rmbl_masked.h:1038-1060 | two residues whose sum mod q is the masked value, the second drawn from the stream |
| MaskedConversions.SecAllLanes | src/rmbl_masked.h:979-987 | bit 0 is the AND of the 32 lanes and the other bits are clear |
| MaskedConversions.AllOk.Add | src/rmbl_masked.h:1171-1181 | the accumulator stays set exactly when it was set and every lane of the new share is set |
| MaskedNoise.SecCbd32 | src/rmbl_masked.h:1065-1101 | 32 residue pairs summing, mod 3329, to the centred binomial of the unmasked bytes, for both eta |
| MaskedDsa.DsaBPrime | src/rmbl_masked.h:1114-1128 | every lane holds the value whose quotient by 2 gamma2 is HighBits |
| MlDsaRounding.BPrimeHighBits | src/rmbl_masked.h:1114-1149 | that value divided by 2 gamma2 is HighBits of the residue, the wrap at q - 1 included |
| MaskedDsa.DsaRevealHighBits | src/rmbl_masked.h:1133-1149 | the binary search over masked comparisons returns exactly that quotient in every lane |
| MaskedDsa.DsaLowBitsOk | src/rmbl_masked.h:1155-1168 | the shared bit says whether the value lies in the window around w1 |
| MlDsaRounding.WindowIsSmall | src/rmbl_masked.h:1155-1168 | lying in the window is the same as the centred remainder after subtracting 2 gamma2 w1 being below gamma2 - beta |
| MaskedDsa.DsaNormAcc | src/rmbl_masked.h:1185-1196 | the accumulator keeps exactly whether every unmasked coefficient is below B in absolute value |
| MaskedVectors.RevealVec | src/rmbl_mldsa_body.h:1112-1114 | the revealed vector is HighBits of every coefficient of the shared vector |
| MaskedVectors.SplitPoly | src/rmbl_mldsa_body.h:1058-1068 | two residue shares of every coefficient, share 0 being the next 256 draws of the stream |
| Keccak.LiteralIndices | src/rmbl_keccak.cpp:87-157 | the straight-line lane indices of the permutation are the ones the formulas of FIPS 202 give |
| Keccak.KeccakF1600 | src/rmbl_keccak.cpp:87-157 | 24 rounds in place are Keccak-f[1600] of the old state |
| Fips202.RhoWalk | src/rmbl_keccak.cpp:50-57 | the offset table is the walk of section 3.2.2 of FIPS 202: along (x, y) to (y, 2x + 3y) from (1, 0), step t turns by (t + 1)(t + 2)/2 mod 64, and lane 0 does not turn |
| Fips202.ConstantsAre | src/rmbl_keccak.cpp:37-48 | each table constant has bit 2^j - 1 equal to the output of the register x^8 + x^6 + x^5 + x^4 + 1 at j + 7i, and no other bit |
| Fips202.KeccakIs | src/rmbl_keccak.cpp:87-157 | the lane permutation is the 24 rounds of FIPS 202 on bits A[x, y, z]: theta, the rho walk, pi, chi and the register's iota |
| Fips202Sponge.AbsorbedBlocks | src/rmbl_keccak.cpp:173-215 | absorbing and finalising is XORing in and permuting whole blocks of the message followed by the pad byte, zeroes and 0x80, the two in one byte when only one is left |
| Fips202Sponge.SpongeIs | src/rmbl_keccak.cpp:173-233 | for every message, rate and output length, the bits of the byte sponge are SPONGE[Keccak, pad10*1] of the message bits and the domain bits that the pad byte carries |
| Fips202Sponge.HashesAre | src/rmbl_keccak.cpp:240-300 | SHAKE256 and SHAKE128 append 1111 at capacity 512 and 256, SHA3-n appends 01 at capacity 2n |
| KeccakSponge.RmblKeccak.Absorb | src/rmbl_keccak.cpp:173-204 | absorbing appends to the absorbed input, however it is cut into calls |
| KeccakSponge.RmblKeccak.Squeeze | src/rmbl_keccak.cpp:217-233 | successive squeezes give consecutive stretches of one output stream |
| MaskedKeccak.LinearXor | src/rmbl_masked.h:1218-1241 | the linear layers of a XOR are the XOR of the linear layers |
| MaskedKeccak.ChiMasked | src/rmbl_masked.h:1255-1262 | the two lanes unmask to chi of the unmasked row, and share 0 is the first lane's behind two fresh words |
| MaskedKeccak.KeccakFMasked | src/rmbl_masked.h:1243-1275 | the XOR of the two states after the masked permutation is the permutation of the XOR before, for every stream |
| MaskedKeccak.SpongeMasked | src/rmbl_masked.h:1280-1315 | the XOR of the two outputs is the plain sponge of the XOR of the inputs, for every rate, domain, length and stream |
| MlDsaArith.MontgomeryContract | src/rmbl_mldsa_core.h:58-63 | congruent to a 2^-32 on all of [-2^31 q, 2^31 q]; in (-q, q) except at a = 2^31 q alone |
| MlDsaArith.MontgomeryAtTop | src/rmbl_mldsa_core.h:58-63 | at a = 2^31 q the result is q, so the documented bound is off by this one operand |
| MlDsaArith.Reduce32Contract | src/rmbl_mldsa_core.h:65-69 | congruent to a, and within 6283008 of 0 except at a = -2143289344 alone |
| MlDsaArith.Reduce32AtBottom | src/rmbl_mldsa_core.h:65-69 | at a = -2143289344 the result is -6283009, so the documented bound is off by this one operand |
| MlDsaArith.BuildZetas | src/rmbl_mldsa_core.h:76-108 | the table is 2^32 zeta^brv8(i) mod q, centred, for every index |
| MlDsaNtt.Ntt | src/rmbl_mldsa_core.h:117-133 | in place, the forward transform mod q of the old array; every intermediate fits in 32 bits |
| MlDsaNtt.InvNttToMont | src/rmbl_mldsa_core.h:135-155 | in place, 2^32 times the inverse transform mod q; inputs up to q never leave 32 bits |
| TransformPoints.HatIsEval | src/rmbl_mldsa_core.h:71-133 | entry i of the transform is the polynomial's value at 1753^(2 brv8(i) + 1) mod q |
| MlDsaRing.HatProduct | src/rmbl_mldsa_body.h:555-584 | the transform of a negacyclic product is the pointwise product of the transforms |
| MlDsaRing.ProductByTransform | src/rmbl_mldsa_core.h:117-155 | the inverse transform of the pointwise product of two transforms is the product in Z_q[X]/(X^256 + 1) |
| MlDsaRounding.DecomposeIsFips | src/rmbl_mldsa_body.h:272-284 | the division-free form equals Decompose of section 7.4 of FIPS 204 on [0, q) for both gamma2 |
| MlDsaRounding.Power2RoundParts | src/rmbl_mldsa_body.h:517-520 | a is a1 2^13 + a0 with a0 in (-2^12, 2^12] and a1 in ten bits |
| MlDsaRounding.HintRecovers | src/rmbl_mldsa_body.h:289-307 | for every w1 and |v| < 2 gamma2 the hint brings w1 back, and it is 1 exactly when HighBits moved |
| MlDsaPacking.LoadStore | src/rmbl_mldsa_body.h:337-493 | unpacking what was packed gives the polynomial back, for every width and offset in use |
| MlDsaPacking.StoreLoad | src/rmbl_mldsa_body.h:337-493 | packing what was unpacked gives the bytes back, so a packed polynomial has one encoding |
| MlDsaPacking.PolyZPack | src/rmbl_mldsa_body.h:464-493 | the byte-by-byte shifts of the z packing write exactly the field packing |
| MlDsaPacking.PolyZUnpack | src/rmbl_mldsa_body.h:164-202 | the byte-by-byte shifts of the z unpacking read exactly the fields |
| MlDsaHints.PackHints | src/rmbl_mldsa_body.h:750-766 | the hint loop writes the specified positions and running counts |
| MlDsaHints.UnpackHints | src/rmbl_mldsa_body.h:772-794 | the reading loop accepts and returns exactly what the specification reads |
| MlDsaHints.HintReadBytes | src/rmbl_mldsa_body.h:750-794 | reading what was written gives the hints back when at most omega bits are set |
| MlDsaHints.HintBytesRead | src/rmbl_mldsa_body.h:772-794 | what was accepted is the only encoding of the hints it returns |
| MlDsaLaws.HintLayout | src/rmbl_mldsa_body.h:750-766 | row i's set positions stand in increasing order after those of the rows before, byte omega + i is their running number, and the rest is zero |
| MlDsaCorrect.SigDecodeEncode | src/rmbl_mldsa_body.h:750-794 | decoding an encoded signature gives it back, for z in (-gamma1, gamma1] and at most omega hints |
| MlDsaCorrect.SigEncodeDecode | src/rmbl_mldsa_body.h:750-794 | encoding what was decoded gives the bytes back: a signature has one encoding |
| MlDsaCorrect.UnpackPackSk | src/rmbl_mldsa_body.h:725-745 | a packed private key unpacks to itself |
| MlDsaCorrect.UnpackPackPk | src/rmbl_mldsa_body.h:709-723 | a packed public key unpacks to itself |
| MlDsaCorrect.RowIdentity | src/rmbl_mldsa_body.h:924-1011 | A z - c t1 2^13 + c s2 = A y + c t0, row by row, out of z = y + c s1 and t = t1 2^13 + t0 |
| MlDsaCorrect.AttemptRecovers | src/rmbl_mldsa_body.h:924-1011 | an accepted attempt's hints bring back the commitment's high bits in every row |
| MlDsaCorrect.SignVerifies | src/rmbl_mldsa_body.h:924-1377 | for every seed, message digest and randomness, a signature that the signer returned under a generated key is accepted under its public key |
| MlDsaLaws.VerifyAccepts | src/rmbl_mldsa_body.h:1339-1377 | an accepted signature begins with the hash of mu and of a w1 that is within 2 gamma2 + 1 of A z - c t1 2^13 mod q in every coefficient, in the ring, and its z is shorter than gamma1 - beta |
| MlDsaLaws.VerifyIff | src/rmbl_mldsa_body.h:1339-1377 | an encoded (c~, z, h) verifies exactly when z is short and c~ is the hash of mu and the rounded A z - c t1 2^13 |
| MlDsaLaws.VerifiedIsEncoding | src/rmbl_mldsa_body.h:1339-1377 | every byte string that verifies is the encoding of a c~, a z in its field's range and at most omega hints |
| MlDsaLaws.OneSignatureTwoDigests | src/rmbl_mldsa_body.h:1339-1377 | a signature accepted for two digests gives two different inputs, one behind each digest, with the same SHAKE256 output |
| MlDsaLaws.SignTries | src/rmbl_mldsa_body.h:924-1011 | for a key in range, the signature is the first accepted of the 1024 candidates and the code is -1 only when none is accepted; a key out of range gives -1 and the buffer as it was |
| MlDsaLaws.CandidateIs | src/rmbl_mldsa_body.h:961-990 | a candidate hashes mu with the high bits of A y, row by row in the ring, and answers y + c s1 |
| MlDsaLaws.AcceptedIff | src/rmbl_mldsa_body.h:970-1004 | a candidate is accepted exactly when every coefficient of z, of w0 - c s2 and of c t0 is inside its bound and at most omega hints are set |
| MlDsaLaws.HintIff | src/rmbl_mldsa_body.h:289-294 | inside those bounds a hint is set exactly where w - c s2 + c t0 has other high bits than w |
| MlDsaLaws.MaskBytes | src/rmbl_mldsa_body.h:204-216 | component i of attempt a packs to the SHAKE256 output on the seed and the two bytes of L a + i, low byte first |
| MlDsaLaws.MaskNoncesDiffer | src/rmbl_mldsa_body.h:619-626 | no two components of any of the 1024 attempts have the same nonce bytes |
| MlDsaLaws.MatrixNonces | src/rmbl_mldsa_body.h:562-569 | entry (i, j) of A is sampled with the nonce bytes j, i |
| MlDsaLaws.KeyGenIs | src/rmbl_mldsa_body.h:800-840 | for every seed: rho begins the public key, tr is the hash of the public key, the small vectors come from nonces 0 to L + K - 1, and t1 2^13 + t0 = A s1 + s2 mod q in the ring with t0 in (-2^12, 2^12] |
| MlDsaSign.SignMessage | src/rmbl_mldsa_body.h:924-1011 | the code's rejection loop on a buffer returns the code and the bytes the specification gives, for every key |
| MlDsaKeysVerify.KeyPairFromSeed | src/rmbl_mldsa_body.h:800-840 | the key bytes are the specification's for every 32-byte seed |
| MlDsaKeysVerify.VerifyMessage | src/rmbl_mldsa_body.h:1339-1377 | the return code is the specification's for every signature, digest and key |
| MlDsaSignMasked.SignMessageMasked | src/rmbl_mldsa_body.h:1135-1298 | for every key, digest, randomness and masking stream the masked signer writes the same bytes and returns the same code as the plain one |
| MlDsaSignMasked.SplitKey | src/rmbl_mldsa_body.h:1157-1160 | two byte shares of the key, share 0 being the low bytes of the next words of the stream |
| MlDsaChallenge.SampleInBall | src/rmbl_mldsa_body.h:228-256 | the shuffle over a byte stream, in place, is the specified walk: bytes above the index dropped |
| MlDsaChallenge.BallWeight | src/rmbl_mldsa_body.h:228-256 | whenever the walk ends, every coefficient is -1, 0 or 1, exactly tau are not 0, and they add up to the first tau signs |
| ChallengeSupport.BallSupport | src/rmbl_mldsa_body.h:228-256 | the set positions are those the accepted bytes grow: each byte's position, or its index when that position is taken |
| ChallengeSupport.BallSigns | src/rmbl_mldsa_body.h:228-256 | the position of accepted byte k, when no later byte names it, carries sign bit k |
| ChallengeSupport.ChallengeIsEven | src/rmbl_mldsa_body.h:228-256 | every set of tau positions out of 256 is reached by exactly tau! sequences of accepted bytes |
| MlDsaChallenge.WalkLonger | src/rmbl_mldsa_body.h:228-256 | more stream changes nothing once the walk has ended, so the block size does not matter |
| MlDsaChallenge.ChallengeBelowBeta | src/rmbl_mldsa_body.h:228-256 | c s stays within beta = tau eta for every sampled c and every s within eta |
| MlKemArith.MontContract16 | src/rmbl_mlkem_arith.h:25-32 | congruent to a 2^-16 and in (-q, q) for |a| < 2^15 q |
| MlKemArith.BarrettContract | src/rmbl_mlkem_arith.h:35-41 | the centred residue of every 16-bit value |
| MlKemArith.DivQContract | src/rmbl_mlkem_arith.h:53-56 | the multiply-and-shift quotient and remainder are exact below 2^23 |
| MlKemArith.PositiveContract | src/rmbl_mlkem_arith.h:58-60 | the canonical residue of every 16-bit value |
| MlKemArith.BuildKZetas | src/rmbl_mlkem_arith.h:68-101 | the table is 2^16 zeta^brv7(i) mod q, centred |
| MlKemNtt.KNtt | src/rmbl_mlkem_arith.h:107-122 | in place, the seven-layer transform mod q; every intermediate fits in 16 bits |
| MlKemNtt.KInvNtt | src/rmbl_mlkem_arith.h:124-143 | in place, 2^16 times the inverse transform mod q; nothing leaves 16 bits |
| TransformPoints.KHatIsResidue | src/rmbl_mlkem_arith.h:62-122 | pair i of the transform is the polynomial modulo X^2 - 17^(2 brv7(i) + 1): the values of its even and odd parts there |
| MlKemRing.KHatProduct | src/rmbl_mlkem_arith.h:146-165 | the transform of a negacyclic product is the base-case product of the transforms |
| MlKemRing.KProductByTransform | src/rmbl_mlkem_arith.h:107-165 | the inverse transform of the base-case product of two transforms is the product in Z_q[X]/(X^256 + 1) |
| MlKemPlain.PolyBaseMul | src/rmbl_mlkem_arith.h:157-165 | the in-place pairs are 2^-16 times the base-case product, within 3540 |
| MlKemCompress.CompressCodeIs | src/rmbl_mlkem_body.h:47-53 | every 16-bit value compresses to Compress_d of its residue |
| MlKemCompress.CompressDecompress | src/rmbl_mlkem_body.h:47-58 | compressing a decompressed value gives it back |
| MlKemCompress.CompressIntervals | src/rmbl_mlkem_body.h:491-500 | the running loop fills the tables with each class's start and width |
| MlKemCompress.IntervalIsCompress | src/rmbl_mlkem_body.h:491-500 | x lies in the cyclic interval of c exactly when Compress_d(x) = c |
| BitCursor.ReadFields | src/rmbl_mlkem_body.h:90-103 | the bit cursor reads the little-endian fields of any width |
| BitCursor.WriteFields | src/rmbl_mlkem_body.h:71-88 | the bit cursor writes them |
| MlKemPlain.SampleCbd | src/rmbl_mlkem_body.h:141-155 | the centred binomial of the bytes, for both eta |
| MlKemLaws.CbdIs | src/rmbl_mlkem_body.h:141-155 | coefficient i is the sum of eta stream bits less the sum of the next eta, from bit 2 eta i on, written out for eta = 2 and 3 |
| MlKemPlain.PkeEncrypt | src/rmbl_mlkem_body.h:293-342 | the ciphertext bytes are the specification's; the key is refused exactly when it is not canonical |
| MlKemPlain.PkeDecrypt | src/rmbl_mlkem_body.h:344-372 | the message bytes are the specification's |
| MlKemPlain.FoSelect | src/rmbl_mlkem_body.h:405-428 | the branch-free selection takes g exactly when the ciphertexts are equal and the key was accepted |
| MlKemPlain.Decapsulate | src/rmbl_mlkem_body.h:430-458 | the shared secret is that of section 6.3 of FIPS 203 for every key and ciphertext |
| MlKemMasked.KSplitPoly | src/rmbl_mlkem_body.h:527-541 | two residue shares of every coefficient, share 0 being the next 256 draws of the stream |
| MlKemDecapsMasked.SplitBytes | src/rmbl_mlkem_body.h:593-600 | two byte shares of z, share 1 being the low bytes of the next words of the stream |
| MlKemMasked.MaskedResidual | src/rmbl_mlkem_body.h:548-572 | two shares of the decryption residual |
| MlKemMasked.DecodeWords | src/rmbl_mlkem_body.h:572-580 | shares of the decoded message bits |
| MlKemMasked.MaskedPrfCbd | src/rmbl_mlkem_body.h:502-518 | two shares of the noise polynomial of the unmasked seed |
| MlKemMasked.ComparePoly | src/rmbl_mlkem_body.h:672-705 | the accumulator keeps exactly whether every coefficient compresses to the ciphertext's field |
| MlKemDecapsMasked.EncodeMatches | src/rmbl_mlkem_body.h:672-705 | the ciphertext equals the re-encryption exactly when every field matches |
| MlKemDecapsMasked.DecapsMasked | src/rmbl_mlkem_body.h:520-776 | for every key, ciphertext and stream, rejected ciphertexts and non-canonical keys included, the plain decapsulation's secret |
| MlKemKeys.KeyPair | src/rmbl_mlkem_body.h:246-388 | the two key encodings of a seed are the specification's, the scaling by 2^32 mod q removed |
| MlKemKeys.Encapsulate | src/rmbl_mlkem_body.h:390-400 | the ciphertext and secret are the specification's; refused exactly under a key that is not canonical |
| MlKemCorrect.ProductsMeet | src/rmbl_mlkem_body.h:246-372 | t r + s f = s u + e r in the ring, for t = A s + e and u = A^T r + f on transforms |
| MlKemRoundTrip.BitSurvives | src/rmbl_mlkem_body.h:201-221 | a coefficient decodes to its bit exactly when its noise is in the bit's window |
| MlKemRoundTrip.DecryptsWhen | src/rmbl_mlkem_body.h:246-372 | decryption returns the message exactly when every coefficient of e r + e2 - s e1 and the rounding errors is in its window |
| MlKemRoundTrip.RoundTrip | src/rmbl_mlkem_body.h:378-458 | when the noise of an honest encapsulation is in its windows, decapsulation returns the encapsulated secret |
| MlKemLaws.DecapsIs | src/rmbl_mlkem_body.h:405-458 | under a generated key, decapsulation is the encapsulation of what it decrypts: its key when that gives the ciphertext back, SHAKE256(z || ct) for every other ciphertext |
| MlKemLaws.RejectsOtherwise | src/rmbl_mlkem_body.h:405-458 | a result other than SHAKE256(z || ct) means the ciphertext is the encapsulation of its own decryption with that result as its key |
| MlKemLaws.DecapsOnAnyKey | src/rmbl_mlkem_body.h:430-458 | for every key of the right length, malformed ones included: G(m || h) with the hash stored in the key, its first half when the stored ek is canonical and re-encryption gives ct back, SHAKE256(z || ct) otherwise |
| MlKemLaws.EncapsulationIs | src/rmbl_mlkem_body.h:390-400 | (key, coins) = SHA3-512(m || SHA3-256(ek)), refused exactly when some coefficient of ek is 3329 or more |
| MlKemLaws.CiphertextIs | src/rmbl_mlkem_body.h:293-342 | the ciphertext's fields are A^T r + e1 and t r + e2 + message in the ring, rounded, entry (i, j) of A^T being sampled from (i, j) |
| MlKemLaws.CoinStreams | src/rmbl_mlkem_body.h:308-311 | noise polynomial n of an encryption is sampled from SHAKE256 of the coins and the byte n, n from 0 to 2k |
| MlKemLaws.SeedStreams | src/rmbl_mlkem_body.h:246-265 | rho and sigma are SHA3-512(d || k), and noise polynomial n of a key is sampled from SHAKE256 of sigma and the byte n |
| MlKemLaws.StreamInputsDiffer | src/rmbl_mlkem_body.h:263-311 | different nonce bytes under one seed are different stream inputs |
| MlKemLaws.PublicKeyIs | src/rmbl_mlkem_body.h:246-288 | the t behind an encapsulation key is A s + e in the ring, entry (i, j) of A being sampled from (j, i) |
| GaloisField.MulAssoc | src/rmbl_hqc_core.h:218-232 | multiplication in GF(2^8) is associative |
| GaloisField.Fermat | src/rmbl_hqc_core.h:234-241 | a^256 = a |
| GaloisField.InverseContract | src/rmbl_hqc_core.h:235-241 | the chain of multiplications gives the inverse of every nonzero element, and 0 for 0 |
| GaloisTables.NoShortPeriod | src/rmbl_hqc_core.h:245-266 | x^k is not 1 for 0 < k < 255 |
| GaloisTables.Generator | src/rmbl_hqc_core.h:245-266 | every nonzero element is a power of x |
| GaloisTables.Modulus | src/rmbl_hqc_core.h:212-232 | x^0 to x^7 are the unit vectors and x^8 = x^4 + x^3 + x^2 + 1 |
| GaloisTables.MakeTables | src/rmbl_hqc_core.h:249-263 | the tables hold the powers of x and their exponents |
| GaloisTables.TableProduct | src/rmbl_hqc_core.h:622-631 | a product through the tables is the field's product |
| GaloisProduct.MulCodeIs | src/rmbl_hqc_core.h:218-232 | the masked integer multiplications and the two folds are the field's product |
| AdditiveFft.RadixEval | src/rmbl_hqc_core.h:713-785 | f(x) = f0(x^2 + x) + x f1(x^2 + x) for the conversion's two halves |
| AdditiveFft.RadixZero | src/rmbl_hqc_core.h:713-785 | the halves of a polynomial that is zero from c on are zero from (c + 1) / 2 and c / 2 on |
| FftRun.RadixConvert | src/rmbl_hqc_core.h:713-785 | the unrolled cases and the split by blocks compute that conversion |
| FftRun.SubsetSums | src/rmbl_hqc_core.h:702-706 | entry i is the sum of the elements at the set bits of i |
| FftRun.NextIndependent | src/rmbl_hqc_core.h:812-815 | the deltas of an independent basis are independent |
| FftRun.LevelValue | src/rmbl_hqc_core.h:803-835 | one level's two values are the polynomial at a subset sum and at that sum plus the last basis element |
| FftRun.Rec | src/rmbl_hqc_core.h:786-840 | in place, the values of the polynomial at every subset sum of the basis |
| FftRun.Run | src/rmbl_hqc_core.h:845-872 | the polynomial's values at all 256 subset sums, for every vector that is zero from f_coeffs on |
| FftRun.PointsCoverField | src/rmbl_hqc_core.h:841-852 | the 256 points are the whole field |
| FftRun.OutputOrder | src/rmbl_hqc_core.h:841-872 | output i is the value at the element whose bits are those of i in reverse |
| ReedSolomon.BuildGenerator | src/rmbl_hqc_core.h:618-633 | the table loop builds the product of x - alpha^i |
| ReedSolomon.GeneratorRoots | src/rmbl_hqc_core.h:618-633 | alpha to alpha^(2 delta) are roots of it |
| ReedSolomon.Encode | src/rmbl_hqc_core.h:636-650 | the shift register writes the remainder in front of the message |
| ReedSolomon.Syndromes | src/rmbl_hqc_core.h:652-660 | syndrome i is the word evaluated at alpha^(i + 1) |
| ReedSolomon.SyndromesVanish | src/rmbl_hqc_core.h:636-660 | every codeword has all its syndromes zero |
| ReedSolomon.OnlyCodewords | src/rmbl_hqc_core.h:636-660 | a word whose syndromes are all zero is the codeword of its own message part |
| ReedMuller.CharacterTransform | src/rmbl_hqc_core.h:581-592 | the transform of a character is 128 at its index and 0 elsewhere |
| ReedMullerCode.Transform | src/rmbl_hqc_core.h:581-592 | the seven passes between the two buffers compute the Walsh-Hadamard transform in 16 bits |
| ReedMullerCode.FindPeak | src/rmbl_hqc_core.h:593-604 | the masked search returns the first largest magnitude and its sign |
| ReedMuller.PeakIsMessage | src/rmbl_hqc_core.h:573-608 | with fewer than 32 MULT flips the peak is unique and at the message |
| ReedMullerCode.Encode | src/rmbl_hqc_core.h:536-567 | every copy of every codeword is the byte's RM(1,7) codeword |
| ReedMuller.CodeBitIs | src/rmbl_hqc_core.h:536-556 | bit b of the codeword is the byte's top bit plus, for k = 0 to 6, the product of bit k of the byte and bit k of b, mod 2 |
| ReedMullerCode.Decode | src/rmbl_hqc_core.h:573-608 | every byte out is the peak of its block's counted, transformed copies |
| ReedMullerCode.DecodeSent | src/rmbl_hqc_core.h:556-608 | the decoder returns every byte of the message when each block has fewer than 32 MULT flips |
| ReedMullerNearest.DistanceIs | src/rmbl_hqc_core.h:573-608 | the number of bits in which a block's copies differ from any byte's codeword is 64 MULT plus or minus the spectrum at the byte's low bits |
| ReedMullerNearest.Nearest | src/rmbl_hqc_core.h:573-608 | whatever was received, no byte's codeword is nearer to a block than that of the byte the decoder returns |
| CarrylessWord.BMulIs | src/rmbl_hqc_core.h:276-285 | every bit of the integer-multiply product is the carry-less product's |
| CarrylessWord.Rev64Bit | src/rmbl_hqc_core.h:286-293 | bit i of the reversed word is bit 63 - i |
| CarrylessWord.ClmulPortable | src/rmbl_hqc_core.h:295-298 | the two words are the 128-bit carry-less product |
| Karatsuba.KaratsubaIdentity | src/rmbl_hqc_core.h:316-337 | the product from three half products, for every odd or even split |
| Karatsuba.School | src/rmbl_hqc_core.h:305-315 | the schoolbook loop, in place, is the product |
| Karatsuba.Multiply | src/rmbl_hqc_core.h:316-338 | the recursion writes the product, never uses more than scratch_words(n) words, and leaves the rest of the buffer alone |
| Karatsuba.FoldIsCyclic | src/rmbl_hqc_core.h:403-409 | folding at N gives the cyclic convolution |
| Karatsuba.MultiplyCyclic | src/rmbl_hqc_core.h:398-413 | the whole product is cyclic convolution mod x^N - 1 with the bits above N clear |
| HqcSamplers.ConstantsAre | src/rmbl_hqc_core.h:138-139 | the Barrett multiplier and the threshold are the quotients they stand for |
| HqcSamplers.BarrettIs | src/rmbl_hqc_core.h:424-429 | the Barrett steps are x mod N for every x below 2^24 |
| HqcSamplers.ReduceIs | src/rmbl_hqc_core.h:1195-1204 | for every 32-bit word the steps are the remainder by n up to 2^31, exactly when n > 1 or the word is at most 1 |
| HqcSamplers.FixedWeight | src/rmbl_hqc_core.h:498-518 | both Sendrier samplers: the backward repair leaves distinct positions below N, each the draw unless it recurs later |
| HqcSamplers.DrawOne | src/rmbl_hqc_core.h:1206-1212 | one draw by either rule: scaled or reduced, at least its own index and below N |
| EvenDraws.DrawsAreEven | src/rmbl_hqc_core.h:498-518 | by either rule, each position open at index i is drawn by floor or ceiling of 2^32 / (N - i) words |
| EvenDraws.ScaledMonotone | src/rmbl_hqc_core.h:498-507 | the scaled draw keeps the order of the words |
| HqcSamplers.FixedWeightUniform | src/rmbl_hqc_core.h:462-493 | distinct positions below N, in the order of the accepted samples |
| EvenDraws.AddsAreEqual | src/rmbl_hqc_core.h:462-493 | whatever has been found, each missing position is added by exactly floor(2^24 / N) of the 24-bit samples |
| HqcSamplers.OneHotIs | src/rmbl_hqc_core.h:434-441 | six fixed shifts give the one bit |
| HqcSamplers.WriteSupport | src/rmbl_hqc_core.h:445-456 | the vector's set bits are exactly the positions |
| HqcSamplers.SupportWeight | src/rmbl_hqc_core.h:445-518 | the vector of w distinct positions below N has Hamming weight w |
| BoundedDraw.Mul128Is | src/morie_core.h:211-217 | the four partial products give the exact 128-bit product |
| BoundedDraw.Draw | src/morie_core.h:210-225 | the first word that is kept decides, and every word before it is one the rule drops |
| BoundedDraw.OneResult | src/morie_core.h:210-225 | a word stands for at most one result, and it is below s |
| BoundedDraw.RejectsIff | src/morie_core.h:210-225 | a word is dropped exactly when it stands for no result |
| BoundedDraw.Unbiased | src/morie_core.h:210-225 | exactly floor(2^64 / s) words stand for each result, for every s >= 1 |
| MerkleTree.MerkleReduce | src/rmbl_digest.cpp:468-487 | one level: pairs hashed, an odd node promoted |
| MerkleTree.ReduceKeepsTree | src/rmbl_digest.cpp:462-487 | a level keeps the recursive tree hash of section 2.1 of RFC 6962 |
| MerkleTree.MerkleRoot | src/rmbl_digest.cpp:652-660 | the level loop returns that tree hash, and nothing for no chunks |
| MerkleTree.RootsWrittenOut | src/rmbl_digest.cpp:462-518 | the roots of one, two and three chunks: 0x00 before a leaf, 0x01 before a pair, left then right, the third leaf promoted |
| MerkleTree.MerkleProof | src/rmbl_digest.cpp:680-709 | the siblings fold the leaf back to the root, and there are at most ceil(log2 n) of them |
| MerkleTree.HeightIsLog | src/rmbl_digest.cpp:680-709 | the bound on the path is the ceiling of the logarithm |
| MerkleTree.CutIsPower | src/rmbl_digest.cpp:462-487 | the place where the recursive hash splits a list is a power of two, with the function's own bounds the largest below its length |
| MerkleTree.EqualRoots | src/rmbl_digest.cpp:462-518 | equal scheme-2 roots, whatever the lengths: the same chunks, or two different inputs with one digest, the first among the inputs the first tree hashes and the second among the second's |
| MerkleTree.EqualRootsOne | src/rmbl_digest.cpp:462-518 | equal scheme-1 roots: the same, when the lists have one length or no chunk has 64 bytes |
| MerkleTree.SchemeOneAmbiguous | src/rmbl_digest.cpp:462-487 | scheme 1 without that condition: two chunks and the one chunk of their digests have the same root, and the one tree hashes nothing the other does not |
| DerEncoding.NumberOfBytes | src/rmbl_asn1.cpp:105-123 | a number's shortest big-endian form reads back |
| DerEncoding.BytesOfNumber | src/rmbl_asn1.cpp:105-123 | a form with no leading zero is the shortest form of its number |
| DerParser.OneSound | src/rmbl_asn1.cpp:76-133 | what the parser consumes is the encoding of the tree it returns, within depth, node, tag and length limits |
| DerParser.OneComplete | src/rmbl_asn1.cpp:62-133 | every tree within the limits parses back from its encoding |
| DerParser.AcceptsEncodings | src/rmbl_asn1.cpp:354-372 | a string is accepted with a tree exactly when it is that tree's encoding and the tree is within the limits |
| DerParser.OneEncoding | src/rmbl_asn1.cpp:354-372 | two accepted strings with the same tree are equal |
| DerLaws.OneLocated | src/rmbl_asn1.cpp:62-133 | every node's span, from its header's first byte to its value's last, is the encoding of its own tree; the header ends where the value begins; and members fill a constructed value one after another |
| DerLaws.LimitsAre | src/rmbl_asn1.cpp:76-80 | accepted means at most 32 levels below the root and 65536 values |
| DerLaws.IdentifierIs | src/rmbl_asn1.cpp:83-101 | the identifier: class in the top two bits, 0x20 for constructed, the tag or 31 and its septets, marked but the last and without a leading zero |
| DerLaws.LengthIs | src/rmbl_asn1.cpp:105-123 | the length itself below 128, else 0x80 + k and its k bytes high first without a leading zero |
| DerParser.ParseOneValue | src/rmbl_asn1.cpp:76-133 | the cursor code with its shared budget does what the specification of the parser does, and ends |
| DerParser.Parse | src/rmbl_asn1.cpp:354-372 | the whole parse accepts exactly the accepted strings and returns their trees |

## Left out

- The samplers of uniform and bounded polynomials (`RejNTTPoly`, `RejBoundedPoly`, `SampleNTT`) are arbitrary functions into their ranges, and signing takes its challenge from an arbitrary function into [-1, 1]; `MlDsaChallenge` models that one sampler on its own, over the stream after the eight sign bytes rather than over 136-byte blocks.
- Rejection loops run over a finite stretch of samples and say when it is too short: `Draw`, `FixedWeightUniform`, `SampleInBall`. The mt19937_64 generator, SHAKE's chunks of 24-bit samples and the loads of 32-bit words are taken as given samples.
- The hash of the Merkle tree is an arbitrary function to 32 bytes; chunk types and the R layer's checks are not modelled.
- `sponge_masked` with a null second input share, which reads as zeroes.
- Structs of vectors passed through one function (signing state, key vectors, noise) are sequences reassigned, not buffers overwritten; the transforms, Keccak states, the signature buffer, Karatsuba's and the FFT's buffers and the Reed-Muller passes are arrays changed in place. Karatsuba's product and scratch are two stretches of one array.
- Hardware carry-less products, AES, the assembly forms of the gadgets, wiping, timing and power leakage.
- The Reed-Muller decoder's comparison masks are modelled by the comparison they compute.
- Error decoding of the Reed-Solomon code (locator, roots to positions, error values) and the HQC key encapsulation around these codes.
- How likely ML-KEM noise is to leave its windows; `RoundTrip` holds whenever it does not.
- DER lengths and tags use a 64-bit `unsigned long` and `size_t`; running out of memory is not modelled.
- R entry points, files, networking, floating-point statistics, RSA and ECDSA arithmetic, random bit generators, SHA-2, BLAKE2b and PBKDF2.
