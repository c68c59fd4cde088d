# Verified models of the ZZ9000 SDK tools

Dafny models of four components of the repository, each proved against the standard it
implements or against a simpler form of itself.

* **Software crypto** (`sdk/tools/zz9k-crypto-soft.c`). `Bignum`, `BignumMod`: compare, add,
  subtract, multiply, long-division remainder and modular power on 32-bit limbs. `Rsa`: PKCS #1
  v1.5 verification against sections 8.2.2 and 9.2 of RFC 8017. `Ring`, `Curve`, `P256`: Jacobian
  point arithmetic. `Poly1305`, `Poly1305Mac`, `ChaChaPoly`: RFC 8439. `Field25519`, `Fe25519`,
  `Encoding25519`, `X25519`: section 5 of RFC 7748. `Ghash`, `Gcm`: NIST SP 800-38D.
* **Archive engine** (`sdk/tools/zz9k-archive.c`). `Lha`, `LhaWalk`, `LhaFile`: the windowed file
  walk against the in-memory walk. `TarNames`, `Tar`, `TarStreams`: the push-style tar stream.
  `Crc32`, `Substreams`, `SplitWriters`: 7z folders and their entries. `Collisions`: the sorted
  collision passes. `BatchPlan`, `BatchRun`: batched decoding. `FeedLoop`: the feed and read loop.
  `StagedReplace`: replacing a file by a finished temporary. `Names`: entry names.
* **SHA-256 streaming** (`util/zzm_pack.c`). `Sha256`.
* **Framebuffer rectangles** (`sdk/tools/zz9k-fb-common.c`). `Framebuffer`.

Machine words are ranges of unbounded integers (`Words`), so every assignment to a `u8`, `u32`,
`u64` or `i64` is a proof that the value fits; where the code lets a value wrap, the wrap is
written out. Masks and shifts of the limb code appear as remainders and quotients, and `Words`
proves that this is what the bit operations compute.

What came out different from what the repository's comments say:

* The window of the LHA file walk grows by four in 32 bits. On a header that is still incomplete
  at 2^30 bytes, in an archive with more to come, the product wraps to zero and the loop repeats
  itself for ever (`LhaWalk.HaltsExactly` is the exact condition, `LhaWalk.EndlessChainStalls` an
  archive that meets it). Archives of at most 2^30 bytes cannot reach that state.
* A GNU long name is appended at the end of the C string collected so far. A record with bytes
  after its first zero therefore comes out differently in one piece and in two, with another name
  (`TarNames.ChunkingCanMatter`) or rejected in one and not in the other
  (`TarNames.ChunkingCanReject`); `TarNames.ChunkFreeExactly` is the exact condition.
* The row offset into a framebuffer backup is computed in 32 bits. A clip whose last row starts at
  2^32 bytes or more in the backup is restored from the wrong row
  (`Framebuffer.BackupReadExactly` is the exact condition, `Framebuffer.BackupCanWrap` an example).
* The GCM length block is computed in 32 bits and is the standard's exactly for lengths below
  2^29 bytes (`Gcm.LengthsConform`).
* On failure of a staged replacement the destination is not always restored, and the temporary is
  not always removed: `StagedReplace.Replace` says exactly when. The old content is never lost. All
  this needs a temporary whose name is not the destination's; the trimming of long names can make
  the two equal (`StagedReplace.TemporaryIsTheDestination` says when), and then the replacement fails, and
  the content survives exactly if it could be moved aside or was not cleaned up.
* With no exponent bits the modular power is 1 even for modulus 1, and exponent bits above the
  given width are not read (`BignumMod.ModExpIsPower`).

## Model

| member | source | states |
|---|---|---|
| Words.AndMask | sdk/tools/zz9k-crypto-soft.c:188-204 | a mask `& (2^k - 1)` keeps exactly the remainder mod 2^k; this is what justifies writing the masks of the limb code as remainders |
| Words.LoadIsOr | sdk/tools/zz9k-crypto-soft.c:16-20 | the OR of four shifted bytes is the little-endian number they stand for |
| Words.JoinIsOr | sdk/tools/zz9k-crypto-soft.c:115-139 | the 32-bit expression `x \| hi << k` is a sum: nothing overlaps and what is shifted out is lost |
| Words.AndSplit | sdk/tools/zz9k-crypto-soft.c:115-139 | AND acts separately below and above any bit position, so masking limbs is masking the number |
| Bignum.Cmp | sdk/tools/zz9k-crypto-soft.c:709-717 | the limb comparison decides the order of the two numbers |
| Bignum.Add | sdk/tools/zz9k-crypto-soft.c:720-731 | result plus carry times 2^(32 len) is the exact sum |
| Bignum.Sub | sdk/tools/zz9k-crypto-soft.c:734-745 | result minus borrow times 2^(32 len) is the exact difference; the borrow tells its sign |
| Bignum.WrappedBorrow | sdk/tools/zz9k-crypto-soft.c:734-745 | bit 32 of a difference wrapped to 64 bits is its sign |
| Bignum.Mul | sdk/tools/zz9k-crypto-soft.c:748-761 | the 2 len limbs are the exact product and no 64-bit step overflows |
| Bignum.NatInjective | sdk/tools/zz9k-crypto-soft.c:709-717 | equal numbers of equal length have equal limbs |
| BignumMod.Bit | sdk/tools/zz9k-crypto-soft.c:764-769 | the bit read by limb and offset is bit i of the number, 0 beyond its end |
| BignumMod.BitOfLimb | sdk/tools/zz9k-crypto-soft.c:764-769 | bit i of the number is bit i mod 32 of limb i / 32 |
| BignumMod.BitLen | sdk/tools/zz9k-crypto-soft.c:772-783 | the least n with the number below 2^n |
| BignumMod.ShiftLeft | sdk/tools/zz9k-crypto-soft.c:786-812 | the shifted limbs with the bit carried out are twice the number |
| BignumMod.DivideOneBit | sdk/tools/zz9k-crypto-soft.c:786-812 | one division step keeps the accumulator the remainder of the leading bits, below the modulus |
| BignumMod.DivisionStep | sdk/tools/zz9k-crypto-soft.c:786-812 | the remainder of a prefix of the dividend gives the remainder of the next longer prefix |
| BignumMod.Mod | sdk/tools/zz9k-crypto-soft.c:786-812 | the mathematical remainder for every nonzero modulus of up to 128 limbs; the accumulator never leaves n + 1 limbs |
| BignumMod.MulMod | sdk/tools/zz9k-crypto-soft.c:815-821 | the product mod m |
| BignumMod.PowerStep | sdk/tools/zz9k-crypto-soft.c:824-846 | squaring and multiplying extends the power by one exponent bit |
| BignumMod.ModExp | sdk/tools/zz9k-crypto-soft.c:824-846 | what the loop leaves for every exponent and every width: the power by the low bits that are read, or the unreduced 1 when none are |
| BignumMod.ModExpIsPower | sdk/tools/zz9k-crypto-soft.c:824-846 | the result is base^e mod m, for e the exponent modulo 2^ebits, unless there are no bits and m is 1 |
| Rsa.FromBe | sdk/tools/zz9k-crypto-soft.c:849-857 | the limbs stand for the big-endian number |
| Rsa.ToBe | sdk/tools/zz9k-crypto-soft.c:860-870 | the bytes stand for the number the limbs stand for |
| Rsa.ParseEncoding | sdk/tools/zz9k-crypto-soft.c:1217-1232 | the scanning parser accepts one byte string and no other: the EMSA-PKCS1-v1_5 encoding of the hash for that length |
| Rsa.EmsaParts | sdk/tools/zz9k-crypto-soft.c:1217-1232 | a string is the encoding if and only if marker, padding, separator, digest info and hash are each in place |
| Rsa.Verify | sdk/tools/zz9k-crypto-soft.c:1187-1233 | 1 if and only if the widths fit, the signature is below the modulus, and signature^e mod n is the encoding of the hash (RFC 8017 sections 8.2.2 and 9.2) |
| Ring.TangentIdentity | sdk/tools/zz9k-crypto-soft.c:968-995 | the tangent construction keeps the distance from the cubic, as a polynomial identity |
| Ring.ChordIdentity | sdk/tools/zz9k-crypto-soft.c:998-1037 | the chord construction likewise, with denominators cleared |
| Curve.DoubleOnCurve | sdk/tools/zz9k-crypto-soft.c:968-995 | doubling takes points on Y^2 = X^3 - 3XZ^4 + bZ^6 mod m to such points, in both branches |
| Curve.DoubleIsTangent | sdk/tools/zz9k-crypto-soft.c:968-995 | the doubled point is the affine tangent construction with denominators cleared |
| Curve.AddOnCurve | sdk/tools/zz9k-crypto-soft.c:998-1037 | addition keeps points on the curve in all branches: infinity on either side, equal, opposite, generic |
| Curve.AddIsChord | sdk/tools/zz9k-crypto-soft.c:998-1037 | the sum of points with different abscissas is the affine chord construction with denominators cleared |
| P256.ModulusValue | sdk/tools/zz9k-crypto-soft.c:878-881 | the modulus limbs are 2^256 - 2^224 + 2^192 + 2^96 - 1 |
| P256.FpAdd | sdk/tools/zz9k-crypto-soft.c:900-908 | the reduced sum, by limbs |
| P256.FpSub | sdk/tools/zz9k-crypto-soft.c:910-917 | the reduced difference, by limbs |
| P256.FpMul | sdk/tools/zz9k-crypto-soft.c:919-922 | the reduced product, by limbs |
| P256.IsZero | sdk/tools/zz9k-crypto-soft.c:940-946 | true exactly for the number 0 |
| P256.SetInfinity | sdk/tools/zz9k-crypto-soft.c:955-965 | the point becomes (1, 1, 0) |
| P256.PtDouble | sdk/tools/zz9k-crypto-soft.c:968-995 | the limb code computes the double of the point, also in place |
| P256.PtAdd | sdk/tools/zz9k-crypto-soft.c:998-1037 | the limb code computes the sum of the points, also in place |
| P256.Scalar | sdk/tools/zz9k-crypto-soft.c:1040-1053 | for every scalar the limb code goes through the accumulators of left-to-right double-and-add, and the result is a reduced point on the curve when the given point is |
| P256.AccumulatorsOnCurve | sdk/tools/zz9k-crypto-soft.c:1040-1053 | and so is every accumulator on the way |
| P256.PointValid | sdk/tools/zz9k-crypto-soft.c:1067-1081 | true exactly for coordinates below p that satisfy the affine equation |
| P256.AffineEquation | sdk/tools/zz9k-crypto-soft.c:1067-1081 | the affine equation is the projective one at Z = 1 |
| P256.GeneratorOnCurve | sdk/tools/zz9k-crypto-soft.c:890-897 | the generator satisfies the equation |
| Poly1305.Init | sdk/tools/zz9k-crypto-soft.c:115-139 | the limbs stand for the clamped first half of the key, the words for its second half |
| Poly1305.ClampLimbs | sdk/tools/zz9k-crypto-soft.c:115-139 | masking limb by limb is the clamp of section 2.5 on the number |
| Poly1305.LoadBlock | sdk/tools/zz9k-crypto-soft.c:160-175 | the five limbs stand for the block |
| Poly1305.HornerProduct | sdk/tools/zz9k-crypto-soft.c:177-186 | the column sums are the product up to a multiple of 2^130 - 5 |
| Poly1305.MultiplyReduce | sdk/tools/zz9k-crypto-soft.c:177-211 | the product mod 2^130 - 5 with no 64-bit overflow, and limbs back in bounds |
| Poly1305.CarryColumns | sdk/tools/zz9k-crypto-soft.c:188-211 | no carry overflows 32 bits, not even the top one times five; limb 1 stays below 2^26 + 64 and the others below 2^26 |
| Poly1305.State.Block | sdk/tools/zz9k-crypto-soft.c:142-212 | the accumulator becomes ((acc + block) * r) mod p and the limb bounds are kept |
| Poly1305Mac.CarryPass | sdk/tools/zz9k-crypto-soft.c:230-244 | one carry pass is enough: the bounds every block leaves make all limbs proper |
| Poly1305Mac.SubtractPrime | sdk/tools/zz9k-crypto-soft.c:246-271 | the conditional subtraction leaves the remainder below the prime |
| Poly1305Mac.PackWords | sdk/tools/zz9k-crypto-soft.c:273-276 | packing limbs to words keeps the low 128 bits |
| Poly1305Mac.Finish | sdk/tools/zz9k-crypto-soft.c:214-291 | the tag is (acc mod p + s) mod 2^128, little-endian |
| Poly1305Mac.Update | sdk/tools/zz9k-crypto-soft.c:293-309 | a message of any length is absorbed as the sequence of its padded blocks |
| Poly1305Mac.Mac | sdk/tools/zz9k-crypto-soft.c:311-320 | the whole MAC of section 2.5 of RFC 8439 |
| Poly1305Mac.MacIsPolynomial | sdk/tools/zz9k-crypto-soft.c:311-320 | that MAC is the polynomial in the clamped r whose coefficients are the padded blocks, mod 2^130 - 5, plus s, mod 2^128 |
| Poly1305Mac.AeadSegment | sdk/tools/zz9k-crypto-soft.c:328-344 | a segment is absorbed as if padded to whole blocks |
| Poly1305Mac.AeadTag | sdk/tools/zz9k-crypto-soft.c:346-378 | the tag is the MAC of aad, ciphertext, their padding and the length block |
| Poly1305Mac.LengthBlockValue | sdk/tools/zz9k-crypto-soft.c:371-375 | the length block is the two 64-bit little-endian lengths |
| ChaChaPoly.XorStream | sdk/tools/zz9k-crypto-soft.c:85-107 | output is input under the key stream with a wrapping block counter, for separate buffers and for one buffer; nothing beyond is touched |
| ChaChaPoly.MaskedTwice | sdk/tools/zz9k-crypto-soft.c:85-107 | the key stream is an involution |
| ChaChaPoly.TagOf | sdk/tools/zz9k-crypto-soft.c:346-378 | the tag under the one-time key drawn from block 0 |
| ChaChaPoly.Encrypt | sdk/tools/zz9k-crypto-soft.c:380-390 | ciphertext and a tag over exactly that ciphertext, also in place |
| ChaChaPoly.Decrypt | sdk/tools/zz9k-crypto-soft.c:667-690 | 1 exactly for the right tag, and only then is anything written |
| ChaChaPoly.OpensExactlyWhatWasSealed | sdk/tools/zz9k-crypto-soft.c:667-690 | what decryption accepts is what encryption produces |
| Field25519.ColumnsAreProduct | sdk/tools/zz9k-crypto-soft.c:557-570 | the ten columns, with doublings and factors of 19, stand for the product mod 2^255 - 19 |
| Field25519.RowValue | sdk/tools/zz9k-crypto-soft.c:536-545 | multiplying by a limb weight moves the limbs as the column formulas say |
| Fe25519.SumColumn | sdk/tools/zz9k-crypto-soft.c:557-570 | no column overflows a signed 64-bit word for operands built by one addition or subtraction of products |
| Fe25519.Mul | sdk/tools/zz9k-crypto-soft.c:546-584 | the product mod 2^255 - 19, limbs tight again, no truncated bit |
| Fe25519.CarryUp | sdk/tools/zz9k-crypto-soft.c:571-579 | the carry pass keeps the value and bounds what reaches the top limb |
| Fe25519.CarryProduct | sdk/tools/zz9k-crypto-soft.c:571-583 | folding the top carry back times 19 keeps the residue and the limb bounds |
| Fe25519.Add | sdk/tools/zz9k-crypto-soft.c:517-519 | the sum of residues; no limb wraps |
| Fe25519.Sub | sdk/tools/zz9k-crypto-soft.c:520-534 | the difference of residues; every limb plus 2p is at least what is subtracted, because subtrahends are tight |
| Fe25519.TwicePrime | sdk/tools/zz9k-crypto-soft.c:520-527 | the constant limbs are 2(2^255 - 19), each large enough |
| Fe25519.MulA24 | sdk/tools/zz9k-crypto-soft.c:589-603 | 121665 times the residue, limbs tight |
| Encoding25519.FromBytes | sdk/tools/zz9k-crypto-soft.c:428-459 | the limbs stand for the little-endian number without its top bit |
| Encoding25519.Quotient | sdk/tools/zz9k-crypto-soft.c:465-469 | the estimate from the top limb is exactly how many primes fit |
| Encoding25519.ToBytes | sdk/tools/zz9k-crypto-soft.c:461-515 | the 32 bytes stand for the residue below the prime |
| Encoding25519.EncodingUnique | sdk/tools/zz9k-crypto-soft.c:461-515 | no other 32 bytes stand for a number below the prime with that residue |
| X25519.CondSwap | sdk/tools/zz9k-crypto-soft.c:412-419 | the masked exclusive or swaps exactly when the bit is 1 |
| X25519.Invert | sdk/tools/zz9k-crypto-soft.c:604-627 | z^(2^255 - 21), for every z |
| X25519.Extend | sdk/tools/zz9k-crypto-soft.c:604-627 | each stretch of squarings and a product joins two runs of one bits in the exponent |
| X25519.Step | sdk/tools/zz9k-crypto-soft.c:641-650 | one iteration is the step of section 5 of RFC 7748 on residues |
| X25519.Iterate | sdk/tools/zz9k-crypto-soft.c:639-651 | with the deferred swap in front of it |
| X25519.Clamp | sdk/tools/zz9k-crypto-soft.c:633-634 | the byte operations are decodeScalar25519 |
| X25519.BitAt | sdk/tools/zz9k-crypto-soft.c:639 | the bit taken is bit i of the scalar |
| X25519.Ladder255 | sdk/tools/zz9k-crypto-soft.c:629-656 | for every scalar and point the output encodes x2 z2^(p-2) of the pseudocode of section 5 |
| X25519.DeferredSwaps | sdk/tools/zz9k-crypto-soft.c:636-652 | swapping only on bit changes computes what swapping before and after every step computes |
| X25519.SharedSecret | sdk/tools/zz9k-crypto-soft.c:658-665 | that output, and 0 exactly when it is all zero |
| LittleEndian.LeInjective | sdk/tools/zz9k-crypto-soft.c:461-515 | byte strings of one length that stand for the same number are equal |
| LittleEndian.BitOfByte | sdk/tools/zz9k-crypto-soft.c:639 | bit i of the number is bit i mod 8 of byte i / 8 |
| Ghash.GhashMul | sdk/tools/zz9k-crypto-soft.c:1380-1403 | the block becomes the product of section 6.3 of SP 800-38D |
| Ghash.ShiftReduce | sdk/tools/zz9k-crypto-soft.c:1392-1400 | the byte-wise shift and reduction are one step of V |
| Ghash.ShiftIsNextV | sdk/tools/zz9k-crypto-soft.c:1392-1400 | bit by bit, across byte borders |
| Ghash.ProductDistributes | sdk/tools/zz9k-crypto-soft.c:1380-1403 | the product distributes over exclusive or on both sides |
| Ghash.ProductCommutes | sdk/tools/zz9k-crypto-soft.c:1380-1403 | the product commutes, although the algorithm treats its factors differently |
| Gcm.GhashUpdate | sdk/tools/zz9k-crypto-soft.c:1407-1421 | the accumulator becomes the hash of the data after what it held |
| Gcm.HashPadded | sdk/tools/zz9k-crypto-soft.c:1407-1421 | zero padding inside a block is the padding of the standard |
| Gcm.HashAppend | sdk/tools/zz9k-crypto-soft.c:1458-1488 | hashing in parts is hashing the concatenation |
| Gcm.CtrPass | sdk/tools/zz9k-crypto-soft.c:1466-1478 | GCTR of the input, for separate buffers and for one buffer; nothing beyond is touched |
| Gcm.Increment | sdk/tools/zz9k-crypto-soft.c:1470-1474 | the last 32 bits of the counter block go up by one, wrapping |
| Gcm.LengthsConform | sdk/tools/zz9k-crypto-soft.c:1483-1486 | the length block is the standard's if and only if both lengths are below 2^29 |
| Gcm.Core | sdk/tools/zz9k-crypto-soft.c:1436-1493 | ciphertext and tag, the ciphertext hashed before or after the CTR pass, in place or not |
| Gcm.GctrTwice | sdk/tools/zz9k-crypto-soft.c:1466-1478 | the mask is an involution |
| Gcm.OpensExactlyWhatWasSealed | sdk/tools/zz9k-crypto-soft.c:1495-1532 | decryption returns a plaintext exactly for the ciphertext and tag that encryption makes of it |
| Gcm.SealConforms | sdk/tools/zz9k-crypto-soft.c:1483-1486 | below 2^29 bytes the tag is that of section 7.1 |
| Gcm.Encrypt | sdk/tools/zz9k-crypto-soft.c:1495-1507 | the sealed pair for every length, also in place; nothing is written for a bad key length |
| Gcm.Decrypt | sdk/tools/zz9k-crypto-soft.c:1509-1532 | the opened plaintext for the right tag, zeros for any other, also in place |
| Names.StripNormalizes | sdk/tools/zz9k-archive.c:412-434 | a stripped name has the same path components, no empty or "." component left inside and no leading "./", and stripping it again changes nothing |
| Names.CollapseCleans | sdk/tools/zz9k-archive.c:421-434 | collapsing leaves no "//" and no "/./", and changes nothing exactly when there is none to begin with |
| Lha.HeaderChecksum | sdk/tools/zz9k-archive.c:681-706 | the checksum verdict |
| Lha.ReadChain | sdk/tools/zz9k-archive.c:1590-1636 | the loop follows the chain of extended headers |
| Lha.ParseHeader | sdk/tools/zz9k-archive.c:1501-1719 | the tri-state verdict and the entry, for every window |
| Lha.VerdictStable | sdk/tools/zz9k-archive.c:1477-1499 | a verdict other than NEEDS_WINDOW never changes when the window grows |
| Lha.ParsedFits | sdk/tools/zz9k-archive.c:1653-1656 | an accepted header lies in the window and its data in the archive |
| Lha.FollowEnd | sdk/tools/zz9k-archive.c:1590-1636 | the chain ends as far on as its sizes add up to, inside the window |
| LhaWalk.ListInMemory | sdk/tools/zz9k-archive.c:1721-1775 | verdict, count and table of the in-memory walk |
| LhaWalk.TurnUsesRoom | sdk/tools/zz9k-archive.c:1853-1915 | every recentring or growing turn uses up room, except on a stalled header in a window of 2^30 bytes |
| LhaWalk.HaltsExactly | sdk/tools/zz9k-archive.c:1853-1915 | the loop over one header ends if and only if the header is not stalled: still incomplete at 2^30 bytes with more archive to come |
| LhaWalk.StalledForever | sdk/tools/zz9k-archive.c:1886-1914 | on a stalled header the loop makes no end of turns, because four times 2^30 wraps to 0 |
| LhaWalk.EndlessChainStalls | sdk/tools/zz9k-archive.c:1886-1914 | a header whose extended headers never end is stalled in every archive of more than 2^30 bytes, and the loop over it never ends |
| LhaWalk.EndlessChainExists | sdk/tools/zz9k-archive.c:1590-1636 | there are such archives of every length from 26 bytes up |
| LhaWalk.SmallIsSmooth | sdk/tools/zz9k-archive.c:1799-1949 | archives of at most 2^30 bytes have no stalled header |
| LhaFile.Window.Refill | sdk/tools/zz9k-archive.c:1835-1843 | the window mirrors the file from the given position, as far as both reach |
| LhaFile.FindHeader | sdk/tools/zz9k-archive.c:1853-1915 | the windowed search finds what the parse of the whole remainder finds |
| LhaFile.NextMember | sdk/tools/zz9k-archive.c:1827-1852 | one member: cancellation, refill, end marks and header as in the in-memory walk |
| LhaFile.ListFile | sdk/tools/zz9k-archive.c:1799-1949 | a success is exactly the in-memory listing; without failures of the environment the verdicts agree; the members handed out are always a prefix of that listing |
| TarNames.AppendIsScan | sdk/tools/zz9k-archive.c:6510-6535 | on a padded record one chunk does what its bytes do one at a time |
| TarNames.PaddedIsChunkFree | sdk/tools/zz9k-archive.c:6510-6535 | a padded record, or one with a name that is too long, comes out the same in every chunking |
| TarNames.ChunkFreeExactly | sdk/tools/zz9k-archive.c:6510-6535 | every chunking of a record gives the name it holds, the bytes before its first zero, if and only if that name fits and only zeros follow it |
| TarNames.AcceptedAlikeExactly | sdk/tools/zz9k-archive.c:6510-6535 | a record that one piece accepts is accepted alike in every chunking if and only if only zeros follow its name |
| TarNames.ChunkingCanMatter | sdk/tools/zz9k-archive.c:6510-6535 | a record whose name differs between one piece and two |
| TarNames.ChunkingCanReject | sdk/tools/zz9k-archive.c:6510-6535 | a record that is too long in one piece and has a name in two |
| TarNames.CutGlues | sdk/tools/zz9k-archive.c:6510-6535 | every unpadded record has such a cut |
| Tar.FoldAppend | sdk/tools/zz9k-archive.c:6490-6620 | feeding bytes a and then b is feeding a + b, and padding is a property of the parts |
| Tar.PayloadAtOnce | sdk/tools/zz9k-archive.c:6505-6596 | a stretch of payload at once is its bytes one after another, up to the end of the entry |
| Tar.TurnIsFold | sdk/tools/zz9k-archive.c:6490-6620 | so is every turn of the loop |
| Tar.ChunkIsFold | sdk/tools/zz9k-archive.c:6490-6620 | a chunk of any size does what its bytes do one at a time |
| Tar.ChunkingDoesNotMatter | sdk/tools/zz9k-archive.c:6490-6620 | consuming a and then b leaves verdict, entries, names, outputs and state of consuming a + b |
| Tar.StaysInPhase | sdk/tools/zz9k-archive.c:6490-6620 | headers, payload and padding always add up to whole blocks |
| Tar.FinishedOnWholeBlocks | sdk/tools/zz9k-archive.c:6622-6633 | a stream that finishes without its end mark was fed whole blocks |
| TarStreams.TarStream.constructor | sdk/tools/zz9k-archive.c:6193-6203 | the start of the stream |
| TarStreams.TarStream.AppendName | sdk/tools/zz9k-archive.c:6510-6535 | the pending name grows at the end of its C string, and a byte that does not fit is an overflow |
| TarStreams.TarStream.CloseOutput | sdk/tools/zz9k-archive.c:6251-6288 | a complete member is committed, or the stream fails |
| TarStreams.TarStream.FinishPayload | sdk/tools/zz9k-archive.c:6553-6594 | what the end of a long name, a PAX record or a file does |
| TarStreams.TarStream.Start | sdk/tools/zz9k-archive.c:6376-6488 | what a complete header does, with the names and sizes left pending; an entry whose output cannot be opened has been counted |
| TarStreams.TarStream.Consume | sdk/tools/zz9k-archive.c:6490-6620 | the whole state after a chunk, and the return value |
| TarStreams.TarStream.Finish | sdk/tools/zz9k-archive.c:6622-6633 | 1 exactly on an entry boundary of a stream that has not failed; otherwise an unfinished output is given up |
| Collisions.HashOfFolded | sdk/tools/zz9k-archive.c:8446-8456 | names that differ only in case have the same hash |
| Collisions.NameHash | sdk/tools/zz9k-archive.c:8446-8456 | the hash of a name is never the reserved 0 |
| Collisions.SlotOf | sdk/tools/zz9k-archive.c:8458-8481 | hash 0 exactly for entries without output |
| Collisions.PrefixContiguous | sdk/tools/zz9k-archive.c:8610-8627 | names that share a prefix follow it without a gap in name order |
| Collisions.RunTwins | sdk/tools/zz9k-archive.c:8594-8609 | members of a run collide exactly if the run is longer than one |
| Collisions.MarkTwins | sdk/tools/zz9k-archive.c:8594-8609 | the hash pass marks exactly the slots with an equal nonzero hash elsewhere |
| Collisions.MarkRelated | sdk/tools/zz9k-archive.c:8610-8627 | the name pass marks exactly both sides of every file-parent pair |
| Collisions.MarkCollisions | sdk/tools/zz9k-archive.c:8581-8630 | an entry is marked if and only if another has its hash or stands in a file-parent relation to it |
| Collisions.NothingMissed | sdk/tools/zz9k-archive.c:8567-8580 | whatever comparing every pair of names finds is marked, on both sides |
| Crc32.Compute | sdk/tools/zz9k-archive.c:379-398 | the CRC of the data after what had the given CRC |
| Crc32.CrcContinues | sdk/tools/zz9k-archive.c:379-398 | continuing a CRC is taking it of the concatenation |
| Substreams.Flatten | sdk/tools/zz9k-archive.c:2589-2743 | succeeds if and only if the substreams fill every folder exactly, and then places each at the running total of the sizes before it |
| Substreams.LayOut | sdk/tools/zz9k-archive.c:2640-2692 | the running totals of one folder, with its packed offsets |
| Substreams.FolderTiles | sdk/tools/zz9k-archive.c:2640-2696 | the decoded offsets tile the folder's unpacked size |
| Substreams.GroupSize | sdk/tools/zz9k-archive.c:10212-10232 | a size exactly for tiling offsets within 2^31 - 1 bytes, and it is the total |
| SplitWriters.SplitWriter.StartEntry | sdk/tools/zz9k-archive.c:10279-10301 | succeeds exactly if the entry needs no file or its file opens |
| SplitWriters.SplitWriter.FinishEntry | sdk/tools/zz9k-archive.c:10303-10331 | succeeds exactly for the right CRC of exactly the entry's slice and a file that closes |
| SplitWriters.SplitWriter.AdvanceEmpty | sdk/tools/zz9k-archive.c:10333-10344 | empty entries are finished where they stand |
| SplitWriters.SplitWriter.TakePart | sdk/tools/zz9k-archive.c:10381-10390 | bytes go into the entry's CRC and file, unless the file has no room for them |
| SplitWriters.SplitWriter.Chunk | sdk/tools/zz9k-archive.c:10346-10398 | succeeds if and only if nothing is wrong with the whole stream so far, however it was cut: not too long, every file opened and with room, every complete entry good |
| SplitWriters.SplitWriter.Finish | sdk/tools/zz9k-archive.c:10400-10412 | succeeds if and only if every entry is filled and good, and then each file holds exactly its slice |
| StagedReplace.ProbeSibling | sdk/tools/zz9k-archive.c:5196-5235 | a name not in use, whatever slot the search starts at; none exactly if all 32 are in use |
| StagedReplace.MoveAside | sdk/tools/zz9k-archive.c:5248-5267 | the old file goes to a fresh name, or everything stays and the temporary is given up |
| StagedReplace.PutInPlace | sdk/tools/zz9k-archive.c:5268-5290 | the new file arrives, or the old one is moved back if that works |
| StagedReplace.Replace | sdk/tools/zz9k-archive.c:5242-5290 | 1 means the staged bytes are at the destination; 0 means the old state is there exactly unless the old file was moved aside and could not be moved back; at every step the old content is at the destination or the backup until the new one is in place; no other path changes |
| StagedReplace.TemporaryCanBeTheDestination | sdk/tools/zz9k-archive.c:5213-5235 | a temporary name can equal a long destination name |
| StagedReplace.TemporaryIsTheDestination | sdk/tools/zz9k-archive.c:5213-5235 | a temporary name is the destination if and only if what goes beyond the kept 96 bytes of the destination's last component is the suffix of its slot |
| FeedLoop.CopyChunk | sdk/tools/zz9k-archive.c:6878-6937 | the next bytes of prefix and file range, in order, and the file position that goes with them; succeeds exactly if some are left, they fit the buffer, and their parts can be copied and read |
| FeedLoop.FeedMore | sdk/tools/zz9k-archive.c:7309-7355 | succeeds exactly if the next piece can be had and the decoder takes it; what the decoder is handed, whether it takes it or not, is that piece, never empty, with the end mark exactly if it completes the stream |
| FeedLoop.ReadMore | sdk/tools/zz9k-archive.c:7357-7423 | a read counts exactly if its status, size and room in the output limit are right, its output is taken, and it makes progress or ends the stream |
| FeedLoop.InOrderGrows | sdk/tools/zz9k-archive.c:7309-7355 | feeds stay a prefix of prefix and file range |
| FeedLoop.Decompress | sdk/tools/zz9k-archive.c:7174-7449 | ends for every decoder, and succeeds if and only if some read reports the end, every read before it is fine and goes on, and every feed they ask for, each a full buffer further into the stream, gets through; feeds are a prefix of the stream in order with the end mark on the completing feed only; the output is the concatenation of the reads and never exceeds the limit |
| BatchPlan.PlanChunk | sdk/tools/zz9k-archive.c:8280-8314 | as many members as fit every budget, and no fewer |
| BatchPlan.PlanAll | sdk/tools/zz9k-archive.c:8798-8817 | chunks and single members cover the list in order; a member is left alone exactly if it exceeds a budget by itself |
| BatchPlan.EachMemberOnce | sdk/tools/zz9k-archive.c:8798-8817 | every member is in exactly one of them |
| BatchPlan.WriteTables | sdk/tools/zz9k-archive.c:8320-8348 | offsets are the running totals of the sizes |
| BatchPlan.TableTiles | sdk/tools/zz9k-archive.c:8320-8348 | source ranges tile the blob and destination ranges the output region |
| BatchRun.FillBlob | sdk/tools/zz9k-archive.c:8826-8875 | succeeds if and only if every member can be had, in one span read, from memory or by a read of its own, and copied; the blob then is the members' bytes one after another, whichever way they were read; nothing else in the arena changes |
| BatchRun.BlobAt | sdk/tools/zz9k-archive.c:8826-8875 | each source range of the table holds its member's bytes |
| BatchRun.DrainOffsets | sdk/tools/zz9k-archive.c:8904-8924 | the drain loop recomputes the table's destination offsets |
| BatchRun.ListedIncrease | sdk/tools/zz9k-archive.c:8829-8855 | the members a walk lists come in increasing, non-overlapping order |
| BatchRun.SelectionIncreases | sdk/tools/zz9k-archive.c:8829-8855 | and so does every selection of them in order, which is what one span read relies on |
| Sha256.Hasher.constructor | util/zzm_pack.c:152-162 | the initial state of the standard and an empty message |
| Sha256.Hasher.Buffer | util/zzm_pack.c:164-179 | the block buffers the message's tail, the state is the fold over what went before |
| Sha256.Hasher.Update | util/zzm_pack.c:164-179 | any sequence of updates amounts to the concatenation of their data |
| Sha256.LastBlocks | util/zzm_pack.c:181-196 | one closing block for a tail of at most 55 bytes, two for more |
| Sha256.Hasher.Final | util/zzm_pack.c:181-202 | the 32 digest bytes, big-endian, of the fold over the message padded as in section 5.1.1 of FIPS 180-4 |
| Sha256.BigEndianWords | util/zzm_pack.c:196-201 | bytes 4i to 4i + 3 of the digest are word i of the state from its high end |
| Framebuffer.ContainsEveryPixel | sdk/tools/zz9k-fb-common.c:127-156 | the corner test decides containment of every pixel |
| Framebuffer.CopyFromSurface | sdk/tools/zz9k-fb-common.c:181-199 | the buffer holds the rectangle row by row without gaps |
| Framebuffer.CopyToSurface | sdk/tools/zz9k-fb-common.c:201-218 | the rectangle's bytes come from the buffer, no other byte changes |
| Framebuffer.CopyBackupClip | sdk/tools/zz9k-fb-common.c:220-256 | refuses exactly what is not inside the backup or too wide, and otherwise restores the clip, from indices computed in 32 bits as in the code; no other byte changes |
| Framebuffer.BackupReadExactly | sdk/tools/zz9k-fb-common.c:240-247 | those indices are where the clip was saved if and only if the clip's last row starts below 2^32 in the backup |
| Framebuffer.BackupCanWrap | sdk/tools/zz9k-fb-common.c:240-247 | a backup and a clip for which they are not |
| Framebuffer.DrawRect | sdk/tools/zz9k-fb-common.c:338-353 | every pixel of the rectangle gets its bytes, nothing outside changes |
| Framebuffer.RestoreUndoesDrawing | sdk/tools/zz9k-fb-common.c:181-256 | after saving, drawing inside and restoring a clip, the clip is as it was and everything else as drawn; restoring all gives the whole surface back |
| Framebuffer.DrawingStaysInside | sdk/tools/zz9k-fb-common.c:338-353 | drawing leaves every byte outside the rectangle alone |

## Left out

- LhaFile.ListFile: needs an archive without a stalled header, because on the others the loop does not end; the callback on each entry is the growing list of entries.
- Tar.ChunkingDoesNotMatter: header and PAX parsing, the choice of action for an entry and the outcome of the commit are parameters, and writes to an output file do not fail.
- StagedReplace.Replace: for a temporary that is the destination itself it says what survives at the end, not at every step on the way.
- SplitWriters.SplitWriter.Chunk: a write to an entry's file fails when the file is full, which depends on its size so far and not on how the stream was cut.
- FeedLoop.Decompress: the begin and close calls of the session and the opening of the output are not part of it; the decoder's answers are an arbitrary sequence.
- Collisions.MarkCollisions: the two sorts are given as arrangements of the slots in the required order; the sort itself is the C library's.
- BatchRun.FillBlob: needs members in increasing order, which is what a walk lists; the mailbox call between filling and draining is not modelled.
- Sha256.Hasher.Final: the compression function is a parameter, and the length is taken modulo 2^64 as in the code.
- Gcm.Core: the block cipher is a parameter; the AES rounds, S-box and key schedule are not modelled.
- ChaChaPoly.XorStream: the ChaCha20 block function is a parameter.
- P256.Scalar: states that the curve equation is kept, not which multiple of the point results; the group law, inversion, ECDH, ECDSA and key generation are not modelled.
- X25519.Ladder255: states the residues of the pseudocode of RFC 7748, not that they are a scalar multiple on the curve; primality of the moduli is not used.
- Limb temporaries: field elements and point coordinates are passed as values and returned, where the C code overwrites arrays; buffers, accumulators, streams and windows are updated in place.
- The three carry passes of the X25519 code are one method, because they are the same nine steps written out three times.
- Framebuffer.DrawRect: the pixel writer is a parameter that writes at most one pixel's bytes; surface descriptors and the colour formulas are not modelled.
- Lha.ParseHeader: the loops that copy and clean a name are functions on byte sequences.
- LhaWalk.ListInMemory: null pointers are not modelled.
- Constant-time behaviour and every other side channel.
- ZIP, gzip, LZMA and the decoders themselves, diagnostics, file identity tests and the platform branches.
