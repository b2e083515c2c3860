# Proofs about Pico FIDO

A Dafny model of the algorithms of the Pico FIDO firmware whose correctness is not visible from one
function body, with proofs of what they are for. `dafny verify dfyconfig.toml` checks everything.

- **Multi-precision arithmetic** of `bignum_core.c`: `Limbs`, `LimbArithmetic`, `LimbShift`, `LimbBytes`,
  `Montgomery`, `ModExp` (with `Division` and `Bits` for plain arithmetic). Limb arrays are Dafny arrays,
  updated in place; every method says what integer its arrays stand for afterwards, and which limbs of its result
  array have not changed; of the scratch array T the exponentiation leaves the contents open. The chain ends with
  `ModExp.ExpMod` and `PowerModulo`: windowed exponentiation is exact, and with the conversions it is A^E mod N.
- **Ciphers**: the AES tables, block and two key schedules (`Gf256`, `Blocks`, `AesTables`, `AesBlock`, `Aes`), ARIA
  (`AriaDiffusion`, `Aria`, `AriaTables`), their boxes and worked examples (`SubstitutionTables`, `AesAnswers`,
  `AriaAnswers`), and the modes over an abstract block cipher (`BlockModes`, `Cbc`, `Xts`,
  `StreamModes`), which AES and ARIA are (`BlockCiphers`). The main results are that decryption
  inverts encryption, that what comes out is what the standards say, that stream modes do not depend on how a message
  is split over calls, and what the CTR key stream is.
- **Codecs**: `Base64`, and DER in `Der` (the format), `Asn1Writer` (backwards into a buffer) and `Asn1Parser`.
- **Authenticator state machines** of CTAP 2.1: stored credentials and their RP files (`CredentialFiles`,
  `CredentialStore`), their enumeration (`CredentialEnumeration`, `EnumerationLimits`), credential selection and the get-next session
  (`Assertion`, sections 6.2 and 6.3), the PIN (`PinMachine`, sections 6.5 and 6.11) and large blobs
  (`LargeBlobs`, section 6.10). Each command is a function from state to status and state; a class with the
  source's fields has a method per command that is proved to compute it; lemmas say exactly what each command accepts
  and does, and the theorems are about all runs.
- **The OTP CRC**: `OtpCrc`.

`Bytes` holds byte strings and buffers.

Some statements one would expect are not true of the code. They are proved in the exact form in which they
hold, with an input that shows why they need it:

- An enumeration over exactly 255 things ends with NO_CREDENTIALS rather than NOT_ALLOWED, because the 8-bit counter
  wraps to 0; over 256 it delivers one and announces 0. An RP with 256 credentials is not enumerated at all, its
  count byte being 0 (`CredentialEnumeration.EnumerationEnds`, `WalkComplete`; runs of stores that get there are in
  `EnumerationLimits`).
- The calls of a credential enumeration stay with the requested RP only up to the call after a failed load, or after
  the end of a list of 255; that call looks for a hash that is no longer the one requested
  (`CredentialEnumeration.CredCalls`, `CallAstray`, `OtherRpDelivered`).
- One credential per user holds only while the handles under an RP have equal length, because handles are compared
  over the shorter length; nor is the credential that is deleted always the one selected
  (`CredentialStore.StoreOnePerUser`, `TwoForOneUser`, `DeleteSelected`).
- Inserting CR LF between the CR and the LF of a line break makes Base64 text rejected, and a line feed can repair
  rejected text (`Base64.InsertLfExact`, `InsertCrLfExact`, `BreakSplit`, `BreakRepairs`).
- XTS in one buffer loses left-over bytes (`Xts.InPlaceExact`, `LeftOverLost`); whole blocks may be processed in place.
- Negative integers do not survive the DER writer (`Der.IntRoundTripExact`).
- The minimum PIN length can drop, because the 64-bit request value is stored in one byte
  (`PinMachine.MinimumDrops`, `MinimumCanDrop`).
- After three mismatches the code reports PIN_AUTH_BLOCKED but, unlike section 6.5 of CTAP 2.1, goes on checking PINs
  without a power cycle: the flag it sets is only reported, never obeyed (`PinMachine.BlockedFromTheThird`, `FlagIgnored`,
  `FlagIgnoredInRuns`, `TokenWhileBlocked`).
- The get-next deadline is computed in 32 bits: it tells 30 seconds exactly when clock and deadline have wrapped
  together (`Assertion.TimelyExact`, `TimelyFails`).
- The exponentiation table holds A^i; a comment in the source says A^(2^i) (`ModExp.PrecomputeWindow`).

## Model

| member | source | states |
|---|---|---|
| LimbArithmetic.MulAddCRun | pico-keys-sdk/mbedtls/library/bignum_core.c:461-497 | a run of MULADDC steps: the limbs and the carry out together are d + s * b + carry in |
| LimbArithmetic.MlaChunks | pico-keys-sdk/mbedtls/library/bignum_core.c:461-497 | the chunks of eight limbs and then of one limb add up to one long row, whatever the length |
| LimbArithmetic.PropagateCarry | pico-keys-sdk/mbedtls/library/bignum_core.c:490-494 | the carry ripples through the excess limbs without changing the total |
| LimbArithmetic.Mla | pico-keys-sdk/mbedtls/library/bignum_core.c:461-497 | d' + carry * 2^(32 dLen) = d + s * b for every length, s cut to the length of d; nothing else changes |
| LimbArithmetic.IsProductStep | pico-keys-sdk/mbedtls/library/bignum_core.c:499-508 | one row of the schoolbook product: the carry the code ignores is zero |
| LimbArithmetic.MulRow | pico-keys-sdk/mbedtls/library/bignum_core.c:499-508 | one more limb of B extends the partial product |
| LimbArithmetic.Mul | pico-keys-sdk/mbedtls/library/bignum_core.c:499-508 | X is exactly A * B in aLimbs + bLimbs limbs |
| LimbArithmetic.AddWithCarry | pico-keys-sdk/mbedtls/library/bignum_core.c:413-417 | the two wrapped additions and their two comparisons give a carry of 0 or 1 that accounts for the sum |
| LimbArithmetic.Add | pico-keys-sdk/mbedtls/library/bignum_core.c:405-421 | X + carry * 2^(32 n) = A + B with carry 0 or 1, also in place |
| LimbArithmetic.SubtractWithBorrow | pico-keys-sdk/mbedtls/library/bignum_core.c:452-455 | the two wrapped subtractions and their comparisons give a borrow of 0 or 1 that accounts for the difference |
| LimbArithmetic.BorrowIsLess | pico-keys-sdk/mbedtls/library/bignum_core.c:444-459 | a final borrow means exactly A < B |
| LimbArithmetic.Sub | pico-keys-sdk/mbedtls/library/bignum_core.c:444-459 | X + B = A + borrow * 2^(32 n), and borrow is 1 exactly when A < B |
| LimbArithmetic.LtCt | pico-keys-sdk/mbedtls/library/bignum_core.c:132-166 | the scan from the top limb down answers A < B |
| LimbShift.ShiftRightLimb | pico-keys-sdk/mbedtls/library/bignum_core.c:360-367 | one limb of the bit shift: value and bits kept for the next limb |
| LimbShift.ShiftRightTotal | pico-keys-sdk/mbedtls/library/bignum_core.c:330-368 | moving limbs and then bits is one division by 2^count |
| LimbShift.ShiftR | pico-keys-sdk/mbedtls/library/bignum_core.c:330-368 | X becomes floor(X / 2^count) for every count, beyond the width too |
| LimbShift.ShiftLeftLimb | pico-keys-sdk/mbedtls/library/bignum_core.c:395-402 | one limb of the bit shift to the left |
| LimbShift.ShiftLeftTotal | pico-keys-sdk/mbedtls/library/bignum_core.c:370-403 | what leaves at the top does not matter modulo the width |
| LimbShift.ShiftL | pico-keys-sdk/mbedtls/library/bignum_core.c:370-403 | X becomes X * 2^count modulo 2^(32 limbs) for every count |
| LimbBytes.MemoryValue | pico-keys-sdk/mbedtls/library/bignum_core.c:82-110 | the bytes of a limb string in memory stand for the same number |
| LimbBytes.BigEndianToHost | pico-keys-sdk/mbedtls/library/bignum_core.c:82-110 | the in-place reversal reverses the bytes in memory, for odd and even limb counts |
| LimbBytes.ReadLe | pico-keys-sdk/mbedtls/library/bignum_core.c:203-224 | fails exactly when the input has more bytes than the limbs, zero or not; otherwise X is the little-endian value |
| LimbBytes.CopyIntoMemory | pico-keys-sdk/mbedtls/library/bignum_core.c:226-255 | the copy to the end of the limb array leaves the input as its last bytes |
| LimbBytes.ReadBe | pico-keys-sdk/mbedtls/library/bignum_core.c:226-255 | fails exactly when the input has more bytes than the limbs; otherwise X is the big-endian value |
| LimbBytes.FitsWhenHighBytesZero | pico-keys-sdk/mbedtls/library/bignum_core.c:257-289 | the bytes that do not fit are all zero exactly when the value is below 256^len |
| LimbBytes.WriteLe | pico-keys-sdk/mbedtls/library/bignum_core.c:257-289 | fails exactly when the value needs more bytes than given; otherwise the bytes stand for the value |
| LimbBytes.WriteBe | pico-keys-sdk/mbedtls/library/bignum_core.c:291-328 | fails exactly when the value needs more bytes than given; otherwise the bytes stand for the value, big-endian |
| LimbBytes.ReadWriteBe | pico-keys-sdk/mbedtls/library/bignum_core.c:226-328 | big-endian write after read returns the input padded with zeros on the left |
| LimbBytes.ReadWriteLe | pico-keys-sdk/mbedtls/library/bignum_core.c:203-289 | little-endian write after read returns the input padded with zeros on the right |
| LimbBytes.WriteReadLimbs | pico-keys-sdk/mbedtls/library/bignum_core.c:203-328 | read after write returns the same limbs |
| Montgomery.NewtonStart | pico-keys-sdk/mbedtls/library/bignum_core.c:515-517 | the starting value is an inverse of N modulo 16 |
| Montgomery.NewtonDoubles | pico-keys-sdk/mbedtls/library/bignum_core.c:519-521 | a Newton step squares the modulus for which the inverse is right |
| Montgomery.InverseStep | pico-keys-sdk/mbedtls/library/bignum_core.c:519-521 | each turn of the loop doubles the number of correct bits |
| Montgomery.MontmulInit | pico-keys-sdk/mbedtls/library/bignum_core.c:513-524 | returns -N^-1 modulo 2^32 for every odd lowest limb |
| Montgomery.MontProductUnique | pico-keys-sdk/mbedtls/library/bignum_core.c:526-580 | the reduced product is the only number below N with X * 2^(32 n) = A * B modulo N |
| Montgomery.MontRow | pico-keys-sdk/mbedtls/library/bignum_core.c:537-546 | one row keeps the scratch area congruent and below 2 N; its carries are zero |
| Montgomery.MontStep | pico-keys-sdk/mbedtls/library/bignum_core.c:537-546 | the loop body on the arrays: T[i..] gains u0 * B + u1 * N and its low limb vanishes |
| Montgomery.MontLoop | pico-keys-sdk/mbedtls/library/bignum_core.c:535-546 | after n rows the upper limbs of T are congruent to A * B / 2^(32 n) and below 2 N |
| Montgomery.MontFinish | pico-keys-sdk/mbedtls/library/bignum_core.c:558-579 | carry is at most 1, carry 1 with borrow 0 cannot happen, and the pair selects the reduced result |
| Montgomery.MontReduce | pico-keys-sdk/mbedtls/library/bignum_core.c:558-579 | the conditional subtraction leaves the Montgomery product |
| Montgomery.Montmul | pico-keys-sdk/mbedtls/library/bignum_core.c:526-580 | X < N with X * 2^(32 n) congruent to A * B, for every A of n limbs and every B <= N; X may be A, B or N |
| ModExp.FormsMultiply | pico-keys-sdk/mbedtls/library/bignum_core.c:526-580 | the Montgomery product of two forms is the form of the product |
| ModExp.EveryNumberIsAForm | pico-keys-sdk/mbedtls/library/bignum_core.c:749-760 | every number below an odd N is the Montgomery form of something |
| ModExp.PrecomputeWindow | pico-keys-sdk/mbedtls/library/bignum_core.c:722-747 | table entry i is the Montgomery form of A^i (the comment at line 789 says A^(2^i), which is not what the code computes) |
| ModExp.CondAssign | pico-keys-sdk/mbedtls/library/bignum_core.c:168-185 | a conditional copy of limbs |
| ModExp.TableLookup | pico-keys-sdk/mbedtls/library/bignum_core.c:596-607 | the selected entry is copied although every entry is visited |
| ModExp.PrefixStep | pico-keys-sdk/mbedtls/library/bignum_core.c:806-823 | the bits of E read so far are its leading bits as a number |
| ModExp.LimbBit | pico-keys-sdk/mbedtls/library/bignum_core.c:823-823 | bit b of limb l is binary digit 32 l + b of E |
| ModExp.WindowSize | pico-keys-sdk/mbedtls/library/bignum_core.c:695-707 | always between 1 and 6, whatever the configuration |
| ModExp.LoopStep | pico-keys-sdk/mbedtls/library/bignum_core.c:811-841 | one bit: square, insert, and multiply when the window is full or the exponent ends; the table index stays inside the table |
| ModExp.ExpLoop | pico-keys-sdk/mbedtls/library/bignum_core.c:788-841 | the whole loop raises to E for every limb count and window size |
| ModExp.ExpMod | pico-keys-sdk/mbedtls/library/bignum_core.c:761-842 | X < N is the Montgomery form of A^E modulo N for every odd N, every A < N in Montgomery form, every E and every window size; X may be A |
| ModExp.ToMontRep | pico-keys-sdk/mbedtls/library/bignum_core.c:871-880 | multiplying by 2^(64 n) mod N gives the Montgomery form |
| ModExp.FromMontRep | pico-keys-sdk/mbedtls/library/bignum_core.c:882-892 | multiplying by one gives the number modulo N back, for N = 1 too |
| ModExp.PowerModulo | pico-keys-sdk/mbedtls/library/bignum_core.c:761-892 | converting, exponentiating and converting back leaves A^E mod N in X, for every A, every E and every odd N; nothing of X above its n limbs changes |
| Gf256.XTimeLinear | pico-keys-sdk/mbedtls/library/aes.c:370-370 | multiplication by x in GF(2^8) is additive |
| Gf256.InvMixLinear | pico-keys-sdk/mbedtls/library/aes.c:736-743 | InvMixColumns of a sum is the sum of InvMixColumns |
| Gf256.InvMixMix | pico-keys-sdk/mbedtls/library/aes.c:442-455 | InvMixColumns undoes MixColumns on every column (FIPS 197, section 5.3.3) |
| AesBlock.FRoundIsRound | pico-keys-sdk/mbedtls/library/aes.c:831-851 | the table round is SubBytes, ShiftRows, MixColumns and the round key |
| AesBlock.RRoundIsRound | pico-keys-sdk/mbedtls/library/aes.c:855-876 | the reverse table round is InvSubBytes, InvShiftRows, InvMixColumns and the round key |
| AesBlock.RoundInverse | pico-keys-sdk/mbedtls/library/aes.c:855-876 | one decryption round with the transformed key undoes one encryption round |
| AesBlock.MeetInTheMiddle | pico-keys-sdk/mbedtls/library/aes.c:883-1000 | after r decryption rounds the state is the substituted state before encryption round nr - r |
| AesBlock.DecryptInvertsEncrypt | pico-keys-sdk/mbedtls/library/aes.c:883-1000 | the equivalent inverse cipher inverts the cipher (FIPS 197, section 5.3.5) |
| Aes.GroupStartIsKeyWord | pico-keys-sdk/mbedtls/library/aes.c:617-680 | the first word of a group of the unrolled expansion is the word of FIPS 197, section 5.2 |
| Aes.GroupNextIsKeyWord | pico-keys-sdk/mbedtls/library/aes.c:617-680 | so are the other words of the group, with the extra substitution of 256-bit keys |
| Aes.AesContext.SetKeyEnc | pico-keys-sdk/mbedtls/library/aes.c:576-680 | key lengths other than 128, 192 and 256 fail; otherwise the context holds the encryption schedule |
| Aes.AesContext.ReverseKeys | pico-keys-sdk/mbedtls/library/aes.c:729-748 | the schedule read backwards, all but the first and last round key through InvMixColumns |
| Aes.AesContext.SetKeyDec | pico-keys-sdk/mbedtls/library/aes.c:687-754 | the context holds the decryption schedule of the key |
| Aes.Encrypt | pico-keys-sdk/mbedtls/library/aes.c:883-938 | the output block is the encryption of the input block under the schedule; nothing else changes |
| Aes.Decrypt | pico-keys-sdk/mbedtls/library/aes.c:945-1000 | the output block is the decryption of the input block under the schedule; nothing else changes |
| Aes.AesRoundTrip | pico-keys-sdk/mbedtls/library/aes.c:576-1000 | decryption under setkey_dec inverts encryption under setkey_enc for every block and all three key sizes |
| AesAnswers.ScheduleRecurrence | pico-keys-sdk/mbedtls/library/aes.c:576-680 | after setkey_enc the buffer starts with the key, has the rounds of its length, and every word obeys the recurrence of FIPS 197, section 5.2, with constants that start at 1 and are each x times the one before |
| AesAnswers.GeneratedConstants | pico-keys-sdk/mbedtls/library/aes.c:394-397 | aes_gen_tables leaves such constants |
| AesAnswers.AesExample | pico-keys-sdk/mbedtls/library/aes.c:883-938 | FIPS 197, appendix C.1: under the schedule of the example key the example block becomes the example ciphertext |
| AesAnswers.FirstExpandedWord | pico-keys-sdk/mbedtls/library/aes.c:617-632 | FIPS 197, appendix A.1: the first expanded word is a0fafe17 |
| AesTables.Order | pico-keys-sdk/mbedtls/library/aes.c:385-389 | three has order 255: no power between the 0th and the 255th is one |
| AesTables.EveryByteIsAPower | pico-keys-sdk/mbedtls/library/aes.c:385-389 | every byte but zero is a power of three with exponent 1 to 255 |
| AesTables.GenPowers | pico-keys-sdk/mbedtls/library/aes.c:385-389 | the power table holds the powers of three, the logarithm table an exponent from 1 to 255 for every other byte |
| AesTables.GenRoundConstants | pico-keys-sdk/mbedtls/library/aes.c:394-397 | the round constants are the powers of x |
| AesTables.SubByteDistinct | pico-keys-sdk/mbedtls/library/aes.c:407-420 | the generated S-box takes no value twice |
| AesTables.GenSBoxes | pico-keys-sdk/mbedtls/library/aes.c:402-420 | the loop fills S-box and reverse S-box so that the second takes every value of the first back |
| AesTables.GeneratedInverse | pico-keys-sdk/mbedtls/library/aes.c:402-420 | the generated reverse S-box inverts the generated S-box |
| AesTables.AffineBits | pico-keys-sdk/mbedtls/library/aes.c:407-414 | bit i of the affine transformation is that of equation 5.1 of FIPS 197 |
| AesTables.TableOfPower | pico-keys-sdk/mbedtls/library/aes.c:407-414 | for every power of three the table entry of FIPS 197 is the transformed inverse |
| AesTables.GeneratedStandard | pico-keys-sdk/mbedtls/library/aes.c:78-112 | the generated boxes are FSb and RSb of FIPS 197, figures 7 and 14, which the source also holds as constant tables |
| AesTables.MulGen | pico-keys-sdk/mbedtls/library/aes.c:371-371 | multiplying a power of three by 9, 11, 13 or 14 adds the logarithm of that number |
| AesTables.MulByTable | pico-keys-sdk/mbedtls/library/aes.c:371-371 | MUL through powers and logarithms is multiplication in GF(2^8) for the constants of InvMixColumns |
| AesTables.GenRoundTables | pico-keys-sdk/mbedtls/library/aes.c:425-455 | FT0 and RT0 hold the columns the round functions use |
| AesTables.GenTables | pico-keys-sdk/mbedtls/library/aes.c:375-456 | all generated tables at once: the boxes are those of FIPS 197, what the AES proofs assume of them holds, and the round tables are those the rounds use |
| Xts.GfMulXIsPolyMulX | pico-keys-sdk/mbedtls/library/aes.c:1165-1178 | gf128mul_x_ble multiplies by x in GF(2^128) with x^128 = x^7 + x^2 + x + 1 |
| Xts.XtsBlocksInverse | pico-keys-sdk/mbedtls/library/aes.c:1224-1249 | whole blocks under consecutive tweaks are undone |
| Xts.XtsInverse | pico-keys-sdk/mbedtls/library/aes.c:1189-1285 | XTS decryption inverts XTS encryption for every length of at least 16 bytes, whole blocks or not |
| Xts.XtsUnitIsXts | pico-keys-sdk/mbedtls/library/aes.c:1224-1282 | for every length: each output block plus its tweak is the cipher of the input block plus its tweak, tweak j being the first times x^j; with left-over bytes the same for the last full block and the block that steals |
| Xts.ReductionPolynomial | pico-keys-sdk/mbedtls/library/aes.c:1165-1178 | x times x^127 is x^7 + x^2 + x + 1 |
| Xts.NextBlockDone | pico-keys-sdk/mbedtls/library/aes.c:1224-1249 | one turn of the block loop, with the tweak swap before left-over bytes |
| Xts.CryptBlocks | pico-keys-sdk/mbedtls/library/aes.c:1224-1249 | the loop writes the whole blocks and leaves the tweaks the stealing needs; input and output may be one buffer |
| Xts.Steal | pico-keys-sdk/mbedtls/library/aes.c:1251-1282 | the last block and the left-over bytes exchange their ends; in one buffer the short end is written before the left-over bytes are read |
| Xts.CryptXts | pico-keys-sdk/mbedtls/library/aes.c:1189-1285 | lengths below 16 or above 2^24 fail; otherwise the output satisfies the equations of XTS, in one buffer for the bytes as they are then seen |
| Xts.InPlaceExact | pico-keys-sdk/mbedtls/library/aes.c:1251-1282 | one buffer gives the data unit exactly when the left-over bytes equal the head of the processed last full block |
| Xts.LeftOverLost | pico-keys-sdk/mbedtls/library/aes.c:1251-1282 | in one buffer the left-over bytes do not reach the result: units that differ only there give the same |
| StreamModes.ChunkingDoesNotMatter | pico-keys-sdk/mbedtls/library/aes.c:1292-1349 | a byte-by-byte run, which is what each call is by its contract, may be split into any number of calls |
| StreamModes.CtrTwoCalls | pico-keys-sdk/mbedtls/library/aes.c:1437-1481 | two CTR calls with offset, counter and stream block carried over yield the output and state of one call on the whole message |
| StreamModes.CfbTwoCalls | pico-keys-sdk/mbedtls/library/aes.c:1292-1349 | so do two CFB128 calls in either direction |
| StreamModes.OfbTwoCalls | pico-keys-sdk/mbedtls/library/aes.c:1398-1430 | so do two OFB calls |
| BlockModes.XorBytesBits | pico-keys-sdk/mbedtls/library/common.h:181-220 | mbedtls_xor adds the bits of every byte modulo 2 |
| StreamModes.CfbInverse | pico-keys-sdk/mbedtls/library/aes.c:1292-1349 | CFB128 decryption undoes encryption from every offset and leaves the same state |
| StreamModes.OfbInverse | pico-keys-sdk/mbedtls/library/aes.c:1398-1430 | OFB is its own inverse from every offset |
| StreamModes.CtrInverse | pico-keys-sdk/mbedtls/library/aes.c:1437-1481 | CTR is its own inverse from every offset |
| StreamModes.WholeBlock | pico-keys-sdk/mbedtls/library/aes.c:1292-1430 | a whole CFB128 or OFB block as in section 6 of NIST SP 800-38A |
| StreamModes.WholeBlockBits | pico-keys-sdk/mbedtls/library/aes.c:1292-1430 | bit for bit: the encrypted IV is added modulo 2 |
| StreamModes.IncrementFromValue | pico-keys-sdk/mbedtls/library/ctr.h:21-33 | the word-by-word carry adds one to the leading words modulo their width |
| StreamModes.IncrementCounter | pico-keys-sdk/mbedtls/library/ctr.h:21-33 | the 16-byte big-endian counter goes up by one modulo 2^128 |
| StreamModes.BlockValIsBigEndian | pico-keys-sdk/mbedtls/library/ctr.h:21-33 | the counter is the big-endian number in the 16 bytes |
| StreamModes.CtrByte | pico-keys-sdk/mbedtls/library/aes.c:1437-1481 | byte k is combined with byte k mod 16 of E(counter + k div 16 mod 2^128) |
| StreamModes.CtrBits | pico-keys-sdk/mbedtls/library/aes.c:1437-1481 | bit for bit: the key stream is added modulo 2 |
| StreamModes.CtrRun | pico-keys-sdk/mbedtls/library/aes.c:1437-1481 | the state and all bytes of a stream that starts at a block |
| StreamModes.CryptOfb | pico-keys-sdk/mbedtls/library/aes.c:1398-1430 | offsets above 15 fail; otherwise output, IV and offset are those of the byte-by-byte run, in place too |
| StreamModes.CryptCfb128 | pico-keys-sdk/mbedtls/library/aes.c:1292-1349 | the same for CFB128 in both directions, in place too |
| StreamModes.CryptCtr | pico-keys-sdk/mbedtls/library/aes.c:1437-1481 | the loop over pieces of up to 16 bytes is the byte-by-byte run, with counter, stream block and offset carried over |
| Cbc.CbcInverse | pico-keys-sdk/mbedtls/library/aes.c:1072-1147 | CBC decryption undoes encryption and leaves the same IV |
| Cbc.CbcBlocks | pico-keys-sdk/mbedtls/library/aes.c:1072-1147 | every block of a call, in both directions, as in section 6.2 of NIST SP 800-38A |
| Cbc.CbcAppend | pico-keys-sdk/mbedtls/library/aes.c:1072-1147 | splitting between blocks over two calls changes nothing |
| Cbc.CryptCbc | pico-keys-sdk/mbedtls/library/aes.c:1072-1147 | lengths that are no multiple of 16 fail; otherwise output and IV are those of CBC, in place too |
| AriaDiffusion.AriaAIsDiffuse | pico-keys-sdk/mbedtls/library/aria.c:115-137 | aria_a is the 16 by 16 matrix of RFC 5794, section 2.4.3 |
| AriaDiffusion.AriaAInvolution | pico-keys-sdk/mbedtls/library/aria.c:115-137 | aria_a is its own inverse |
| AriaDiffusion.AriaALinear | pico-keys-sdk/mbedtls/library/aria.c:115-137 | aria_a of a sum is the sum of aria_a |
| Aria.SlInverse | pico-keys-sdk/mbedtls/library/aria.c:147-168 | the two substitution layers invert each other |
| Aria.RotateLeftBits | pico-keys-sdk/mbedtls/library/aria.c:328-348 | bit k of the rotated block is bit k + n modulo 128 of the block |
| Aria.AriaRot128 | pico-keys-sdk/mbedtls/library/aria.c:328-348 | the loop over words yields a plus the 128-bit rotation of b |
| Aria.MeetInTheMiddle | pico-keys-sdk/mbedtls/library/aria.c:451-503 | before round r decryption is at the diffused encryption state plus its diffused key |
| Aria.ReversedInverts | pico-keys-sdk/mbedtls/library/aria.c:451-503 | running the cipher with reversed, diffused keys inverts it |
| Aria.AriaContext.SetKeyEnc | pico-keys-sdk/mbedtls/library/aria.c:353-411 | key lengths other than 128, 192, 256 fail; otherwise nr is 12, 14 or 16 and the 17 round keys are those of the schedule |
| Aria.AriaContext.FlipKeys | pico-keys-sdk/mbedtls/library/aria.c:430-437 | the swap loop reverses the round keys in use |
| Aria.AriaContext.SetKeyDec | pico-keys-sdk/mbedtls/library/aria.c:417-445 | the context holds the reversed keys, the middle ones diffused |
| Aria.AriaContext.CryptEcb | pico-keys-sdk/mbedtls/library/aria.c:451-503 | the output block is the cipher under the round keys; nothing else changes |
| Aria.AriaRoundTrip | pico-keys-sdk/mbedtls/library/aria.c:353-503 | setkey_dec inverts setkey_enc for every block and 12, 14 and 16 rounds |
| SubstitutionTables.FirstPair | pico-keys-sdk/mbedtls/library/aria.c:173-251 | aria_sb1 and aria_is1 are inverse permutations |
| SubstitutionTables.SecondPair | pico-keys-sdk/mbedtls/library/aria.c:199-275 | so are aria_sb2 and aria_is2 |
| AriaTables.AriaDecryptsWithTables | pico-keys-sdk/mbedtls/library/aria.c:173-503 | with the tables of the source setkey_dec inverts setkey_enc |
| AriaAnswers.ConstantOrder | pico-keys-sdk/mbedtls/library/aria.c:358-363 | the rows of constants are those of RFC 5794, section 2.2, in its order for each key length |
| AriaAnswers.ExampleWords | pico-keys-sdk/mbedtls/library/aria.c:384-392 | RFC 5794, appendix A: the words of the key schedule for the example keys of 128, 192 and 256 bits |
| AriaAnswers.AriaExample | pico-keys-sdk/mbedtls/library/aria.c:353-503 | RFC 5794, appendix A.1: the example block becomes the example ciphertext |
| BlockCiphers.AesIsPermutation | pico-keys-sdk/mbedtls/library/aes.c:576-1000 | AES with the two schedules of a key is a block permutation as the modes take it |
| BlockCiphers.AriaIsPermutation | pico-keys-sdk/mbedtls/library/aria.c:353-503 | so is ARIA |
| BlockCiphers.SameBytes | pico-keys-sdk/mbedtls/library/aes.c:883-938 | the bytes of the modes are the bytes of the ciphers, value for value |
| BlockCiphers.AesXtsInverse | pico-keys-sdk/mbedtls/library/aes.c:1189-1285 | XTS with AES: encryption and decryption contexts of one key undo each other on every data unit |
| Base64.DigitMapsInverse | pico-keys-sdk/mbedtls/library/base64.c:25-56 | the digit maps are inverse and accept exactly the 64 digits |
| Base64.AlphabetIs | pico-keys-sdk/mbedtls/library/base64.c:25-56 | the digits are A to Z, a to z, 0 to 9, + and /, in this order |
| Base64.TestVectors | pico-keys-sdk/mbedtls/library/base64.c:61-123 | the short test vectors of RFC 4648, section 10 |
| Base64.LongTestVectors | pico-keys-sdk/mbedtls/library/base64.c:61-123 | its longer ones |
| Base64.DecodedEncoded | pico-keys-sdk/mbedtls/library/base64.c:61-231 | decoding undoes encoding for every byte string |
| Base64.DecodeOfEncode | pico-keys-sdk/mbedtls/library/base64.c:61-231 | the whole decoder, length checks included, returns the encoded bytes whenever they fit |
| Base64.DecodesGroup | pico-keys-sdk/mbedtls/library/base64.c:205-228 | any four digits become the three bytes of the same 24 bits |
| Base64.AcceptsExact | pico-keys-sdk/mbedtls/library/base64.c:138-184 | pass one accepts exactly the texts in which CR stands before LF, a space before a space, a line break or the end, and the other characters are digits and then at most two padding characters |
| Base64.DecodeStatus | pico-keys-sdk/mbedtls/library/base64.c:128-203 | when the decoder refuses, asks for more room, or succeeds, and the room it asks for |
| Base64.LiveShape | pico-keys-sdk/mbedtls/library/base64.c:138-184 | what pass one accepts is digits followed by at most two padding characters |
| Base64.WritesAtMostAnnounced | pico-keys-sdk/mbedtls/library/base64.c:186-228 | pass two never writes more than pass one announced, and as much exactly when the last group is full or covered by padding |
| Base64.InsertLf | pico-keys-sdk/mbedtls/library/base64.c:138-231 | a line feed inserted anywhere into an accepted text changes nothing |
| Base64.InsertCrLf | pico-keys-sdk/mbedtls/library/base64.c:138-231 | CR LF changes nothing in an accepted text, except between an existing CR and LF, where it makes the text rejected |
| Base64.InsertLfExact | pico-keys-sdk/mbedtls/library/base64.c:138-231 | for every text, accepted or not: a line feed changes the outcome exactly where it repairs the text, after a lone CR or after spaces inside a line |
| Base64.InsertCrLfExact | pico-keys-sdk/mbedtls/library/base64.c:138-231 | for every text: after a CR, CR LF changes the outcome exactly of accepted texts; elsewhere it does exactly what a line feed does |
| Base64.BreakSplit | pico-keys-sdk/mbedtls/library/base64.c:138-172 | the text CR LF is accepted and is rejected with CR LF inserted inside it |
| Base64.BreakRepairs | pico-keys-sdk/mbedtls/library/base64.c:138-172 | a line feed after a space or a lone CR can make a rejected text accepted |
| Base64.Encode | pico-keys-sdk/mbedtls/library/base64.c:61-123 | olen and status in every case; on success the digits and a terminating zero, and nothing beyond |
| Base64.CheckAndCount | pico-keys-sdk/mbedtls/library/base64.c:138-184 | pass one accepts exactly the texts of the line grammar and counts characters and padding |
| Base64.WriteBytes | pico-keys-sdk/mbedtls/library/base64.c:205-230 | pass two writes the decoded bytes with its 32-bit accumulator and stays inside the announced size |
| Base64.Decode | pico-keys-sdk/mbedtls/library/base64.c:128-231 | status, olen and bytes of the whole decoder; a failed call writes nothing |
| CredentialFiles.RpSlotFree | src/fido/credential.c:318-333 | while a credential slot is free an RP slot is free: there are no more RPs than credentials |
| CredentialFiles.AddKeeps | src/fido/credential.c:318-349 | counting a new credential keeps RP files and credentials in step |
| CredentialFiles.DropKeeps | src/fido/cbor_cred_mgmt.c:363-391 | so does uncounting a deleted one, also when the count byte is 0 for 256 credentials |
| CredentialFiles.ReplaceKeeps | src/fido/credential.c:311-316 | overwriting a credential of the same RP needs no recount |
| CredentialFiles.AddedFile | src/fido/credential.c:318-349 | which EF_RP file counts a credential, and what a new one holds |
| CredentialFiles.Agreement | src/fido/cbor_cred_mgmt.c:365-367 | two ids, or two handles, agree when one begins with the other |
| CredentialStore.StoreKeeps | src/fido/credential.c:266-351 | a store keeps the invariant and never reaches the second return -1 |
| CredentialStore.CommandKeeps | src/fido/cbor_cred_mgmt.c:349-440 | store, delete and update keep the invariant |
| CredentialStore.StoreOutcome | src/fido/credential.c:266-351 | when a store fails, and which single slot it writes when it does not |
| CredentialStore.StoreSlot | src/fido/credential.c:275-316 | the first agreeing handle, or without one the first free slot |
| CredentialStore.StoreCounts | src/fido/credential.c:318-349 | a store into a free slot makes one EF_RP file count it; a new file holds 1, the RP id hash and the RP id of the credential |
| CredentialStore.RunKeepsRpIds | src/fido/credential.c:318-349 | where credentials carry the RP id of their hash, after any run so does every EF_RP file |
| CredentialStore.UpdateOutcome | src/fido/cbor_cred_mgmt.c:409-442 | exactly when an update is accepted, and when it is refused for the user; refused it changes nothing |
| CredentialStore.DeleteOutcome | src/fido/cbor_cred_mgmt.c:363-394 | a delete finds nothing exactly when no id agrees; otherwise the first agreeing credential is gone and nothing else, or its file cannot be deleted and nothing changes |
| CredentialStore.DeleteSelected | src/fido/cbor_cred_mgmt.c:363-394 | the selected credential is the one deleted exactly when no earlier id agrees over the shorter length |
| CredentialStore.RunKeeps | src/fido/cbor_cred_mgmt.c:349-440 | after any run an RP hash has an EF_RP file exactly when a credential carries it, at most one, with the number of credentials modulo 256 |
| CredentialStore.EmptyIsConsistent | src/fido/credential.c:266-351 | empty storage satisfies the invariant |
| CredentialStore.StoreOnePerUser | src/fido/credential.c:275-303 | a store keeps one credential per user exactly when the user is new or the first handle that agrees over the shorter length is the same handle |
| CredentialStore.EqualLengthsOnePerUser | src/fido/credential.c:275-303 | with handles of equal length under each RP a store always keeps one credential per user |
| CredentialStore.RunOnePerUser | src/fido/credential.c:266-351 | so does every run of stores, updates and deletes |
| CredentialStore.StoreAmongTwo | src/fido/credential.c:275-316 | which of two slots a store takes, by the agreement of handles |
| CredentialStore.TwoForOneUser | src/fido/credential.c:298-300 | on any device, four stores with handles u, v, w, v leave two credentials of one user when w agrees with u and v over the shorter length but u not with v; [1, 2], [1, 3], [1] are such handles |
| CredentialStore.UpdateInPlace | src/fido/cbor_cred_mgmt.c:409-442 | an update rewrites one credential, leaves the RP files alone, and hits the selected one exactly when no earlier handle of the RP agrees with it |
| CredentialStore.Flash.Store | src/fido/credential.c:266-351 | the two slot scans: status and both file tables |
| CredentialStore.Flash.CountReference | src/fido/credential.c:318-349 | the second scan adds a reference or creates the RP file in the first free slot |
| CredentialStore.Flash.Delete | src/fido/cbor_cred_mgmt.c:363-394 | deletes the first credential whose id agrees over the shorter length and uncounts its RP, by a copy of the hash; a file that cannot be deleted is NOT_ALLOWED |
| CredentialStore.Flash.Update | src/fido/cbor_cred_mgmt.c:409-442 | status and both file tables after an update |
| CredentialEnumeration.SlotsExact | src/fido/cbor_cred_mgmt.c:165-180 | the enumerated list holds every matching slot once, in slot order |
| CredentialEnumeration.Enumeration | src/fido/cbor_cred_mgmt.c:145-241 | every reply of an enumeration of up to 256 things, with 8-bit counters, for all calls |
| CredentialEnumeration.EnumerationEnds | src/fido/cbor_cred_mgmt.c:145-241 | the announced total is what is delivered exactly below 256; the end is NOT_ALLOWED except for exactly 255, where the counter has wrapped |
| CredentialEnumeration.EnumerationToFailure | src/fido/cbor_cred_mgmt.c:199-320 | a credential that cannot be loaded ends its call with NOT_ALLOWED and leaves the cursor; the calls before it are those of an enumeration without failures |
| CredentialEnumeration.CredCalls | src/fido/cbor_cred_mgmt.c:199-320 | the kept RP id hash makes the follow-up calls an enumeration of the requested RP, failing loads included, until the call after a failure or after the end of a list of 255 |
| CredentialEnumeration.CallAstray | src/fido/cbor_cred_mgmt.c:221-321 | that call passes the counter check and looks for another hash: the one kept from an earlier enumeration, or memory that has been given back (lines 449-451) |
| CredentialEnumeration.OtherRpDelivered | src/fido/cbor_cred_mgmt.c:199-320 | a failed load at the first credential while the hash of another RP is kept: the next call delivers a credential of the other RP |
| CredentialEnumeration.VisibleBelow256 | src/fido/cbor_cred_mgmt.c:165-180 | an RP is enumerated exactly when it has fewer than 256 credentials |
| CredentialEnumeration.WalkReaches | src/fido/cbor_cred_mgmt.c:145-241 | enumerating RPs and the credentials of each reaches every stored credential |
| CredentialEnumeration.WalkOnce | src/fido/cbor_cred_mgmt.c:145-241 | no credential is delivered twice |
| CredentialEnumeration.WalkComplete | src/fido/cbor_cred_mgmt.c:145-241 | the walk is complete exactly when neither the RPs nor the credentials of one RP number 256 |
| CredentialEnumeration.At255 | src/fido/cbor_cred_mgmt.c:145-241 | with at most 255 stored credentials that is always so |
| CredentialEnumeration.FindSlot | src/fido/cbor_cred_mgmt.c:165-180 | the slot loop: the 8-bit skip counter meets the enumeration counter exactly at the listed slot, and the total is the low byte of the number of matches |
| EnumerationLimits.FullRp | src/fido/cbor_cred_mgmt.c:145-180 | 256 stores for one RP leave a consistent storage with count byte 0: NO_CREDENTIALS for RPs, and the walk misses credentials |
| EnumerationLimits.RpOf255 | src/fido/cbor_cred_mgmt.c:199-241 | 255 stores for one RP: calls 0 to 254 deliver, call 255 answers NO_CREDENTIALS |
| EnumerationLimits.FullRps | src/fido/cbor_cred_mgmt.c:145-180 | 256 stores for 256 RPs: one RP delivered, total 0 announced, and the walk misses credentials |
| EnumerationLimits.RpsTo255 | src/fido/cbor_cred_mgmt.c:145-180 | 255 stores for 255 RPs: all delivered, call 255 answers NO_CREDENTIALS |
| EnumerationLimits.WalkCanMiss | src/fido/cbor_cred_mgmt.c:145-241 | such storage exists, with every credential loadable |
| CredentialEnumeration.Session.Metadata | src/fido/cbor_cred_mgmt.c:133-143 | the existing count is one byte, and the two numbers add up to 256 |
| CredentialEnumeration.Session.EnumerateRps | src/fido/cbor_cred_mgmt.c:145-198 | the slot loop with skip, counter and total bytes makes the step of the list |
| CredentialEnumeration.Session.EnumerateCreds | src/fido/cbor_cred_mgmt.c:199-321 | the same for the credentials of one RP, with the load and key failures and the kept hash |
| Assertion.KeptExactly | src/fido/cbor_get_assertion.c:323-342 | the credProtect filter keeps exactly the allowed credentials, each as often as before |
| Assertion.ProtectionLevels | src/fido/cbor_get_assertion.c:323-342 | credProtect levels 1, 2 and 3 of CTAP 2.1, section 12.1 |
| Assertion.ListedAppend | src/fido/cbor_get_assertion.c:284-301 | the allow list is gone through in order, each entry for itself |
| Assertion.ListedOne | src/fido/cbor_get_assertion.c:284-301 | an entry gives its credential exactly when it is a public key and loads |
| Assertion.StoredOne | src/fido/cbor_get_assertion.c:302-322 | a stored file gives its credential exactly when it is of the RP and loads |
| Assertion.FirstOutcome | src/fido/cbor_get_assertion.c:343-401 | which reply the first call gives and when it starts a session |
| Assertion.NextOutcome | src/fido/cbor_get_assertion.c:45-77 | when a further call is answered |
| Assertion.GatherListed | src/fido/cbor_get_assertion.c:284-301 | the loadable public-key entries of the allow list, or an incomplete entry reported |
| Assertion.GatherStored | src/fido/cbor_get_assertion.c:302-322 | the first 16 loadable credentials of the RP in slot order |
| Assertion.Protect | src/fido/cbor_get_assertion.c:323-342 | the in-place compaction leaves the filtered list in order |
| Assertion.ExchangeSort | src/fido/cbor_get_assertion.c:347-355 | a permutation in non-increasing creation time; the rest of the array is untouched |
| Assertion.TimelyWithin30s | src/fido/cbor_get_assertion.c:50-52 | a reply is timely exactly within 30 seconds, except when the deadline wraps |
| Assertion.TimelyAfterWrap | src/fido/cbor_get_assertion.c:50-52 | what the 32-bit comparison answers once the clock has wrapped |
| Assertion.TimelyExact | src/fido/cbor_get_assertion.c:50-52 | the comparison tells 30 seconds exactly when deadline and clock have wrapped together or neither has |
| Assertion.TimelyFails | src/fido/cbor_get_assertion.c:50-52 | one millisecond can be too late, and almost a whole clock period in time |
| Assertion.SessionState | src/fido/cbor_get_assertion.c:45-77 | the session after k timely calls |
| Assertion.SessionDelivers | src/fido/cbor_get_assertion.c:45-77 | the first reply and n - 1 timely calls deliver the sorted list once each; every later call is refused |
| Assertion.NoSession | src/fido/cbor_get_assertion.c:382-401 | a single credential or options that turn everything off keep the session as it was |
| Assertion.GetAssertion.First | src/fido/cbor_get_assertion.c:284-401 | gather, filter, sort, reply and save: the sorted list is a permutation of the allowed candidates |
| Assertion.GetAssertion.Next | src/fido/cbor_get_assertion.c:45-77 | reply and session after one call; any error and the last reply reset everything |
| PinMachine.RunKeepsSafe | src/fido/cbor_client_pin.c:363-627 | in every run a stored PIN is long enough or a change is forced, 8 - retries is the number of wrong checks since the last right one, and new_pin_mismatches is the number of failed compares since then or the last power cycle |
| PinMachine.CommandKeepsSafe | src/fido/cbor_config.c:192-222 | every single command keeps this, setMinPINLength included |
| PinMachine.BlockedFromTheThird | src/fido/cbor_client_pin.c:478-486 | PIN_AUTH_BLOCKED is answered exactly to a failed compare from the third on with retries left |
| PinMachine.FlagIgnored | src/fido/cbor_client_pin.c:433-494 | for every state and command, status, charge, PIN file and token are those without needs_power_cycle |
| PinMachine.FlagIgnoredInRuns | src/fido/cbor_client_pin.c:363-627 | so whole runs do not depend on it |
| PinMachine.TokenWhileBlocked | src/fido/cbor_client_pin.c:464-494 | setPIN, three wrong requests and PIN_AUTH_BLOCKED, then the right PIN gets a token without a power cycle |
| PinMachine.TokenIssued | src/fido/cbor_client_pin.c:535-626 | a token is issued exactly to a well-formed request with the right PIN when no change is forced, and then the PIN is long enough |
| PinMachine.SetPinOutcome | src/fido/cbor_client_pin.c:363-423 | for every request: when setPIN is accepted, why it is refused, and what it stores |
| PinMachine.ChangePinOutcome | src/fido/cbor_client_pin.c:424-534 | for every request: when changePIN is accepted and the whole state it leaves |
| PinMachine.TokenOutcome | src/fido/cbor_client_pin.c:535-626 | for every request: when a token is issued, with which permissions, RP id hash and flags; 0x05 gives permissions 3 |
| PinMachine.RetryOutcome | src/fido/cbor_client_pin.c:438-494 | what every command does to the retries, and the status of a failed compare |
| PinMachine.SetMinLengthOutcome | src/fido/cbor_config.c:110-222 | for every request: when setMinPINLength is accepted and what it writes |
| PinMachine.TokenFrame | src/fido/cbor_client_pin.c:169-178 | exactly which commands change the token, and how |
| PinMachine.ChangeRevokes | src/fido/cbor_client_pin.c:532-532 | after an accepted changePIN no setMinPINLength is accepted in any run until a token request succeeds |
| PinMachine.LockedStep | src/fido/cbor_client_pin.c:433-438 | with 0 retries no command changes the PIN file or is charged |
| PinMachine.LockedForEver | src/fido/cbor_client_pin.c:363-627 | nor does any run of commands, power cycles included |
| PinMachine.EightChecks | src/fido/cbor_client_pin.c:464-499 | retries are used up exactly at the eighth wrong check |
| PinMachine.PinChanges | src/fido/cbor_client_pin.c:363-533 | the stored PIN changes only by setPIN without one or by changePIN with the right old one, and the new one is long enough |
| PinMachine.MinimumDrops | src/fido/cbor_config.c:110-222 | for every request: the minimum drops exactly when an authorised request asks for 256 or more, its low byte is smaller, and no change is forced without a PIN |
| PinMachine.MinimumNeedsPin | src/fido/cbor_config.c:130-134 | in every run an accepted setMinPINLength finds a stored PIN |
| PinMachine.MinimumCanDrop | src/fido/cbor_config.c:206-215 | a run: a PIN, a token for configuration, setMinPINLength 256; the minimum is 0, a change is forced, and changePIN stores the empty PIN |
| PinMachine.EmptyPinSet | src/fido/cbor_client_pin.c:404-411 | setPIN accepts the empty PIN exactly when the minimum is 0 |
| PinMachine.EmptyPinChange | src/fido/cbor_client_pin.c:500-530 | changePIN with the right PIN accepts the empty one exactly when the minimum is 0 and no change to the same hash is forced |
| PinMachine.ForceLifted | src/fido/cbor_client_pin.c:519-530 | a forced change is lifted only by changePIN to another hash or a setMinPINLength that does not force |
| PinMachine.Authenticator.MeasurePin | src/fido/cbor_client_pin.c:404-407 | the loop finds the first zero byte |
| PinMachine.Authenticator.SetPin | src/fido/cbor_client_pin.c:363-423 | status and state of setPIN, branch by branch |
| PinMachine.Authenticator.Check | src/fido/cbor_client_pin.c:464-494 | charge first, then compare, then restore; blocked, auth-blocked and invalid told apart |
| PinMachine.Authenticator.ChangePin | src/fido/cbor_client_pin.c:424-534 | status and state of changePIN; the retries are restored before the new PIN is judged |
| PinMachine.Authenticator.GetToken | src/fido/cbor_client_pin.c:535-626 | status and state of the token requests |
| PinMachine.Authenticator.SetMinLength | src/fido/cbor_config.c:110-222 | status and file of setMinPINLength, its authorisation included |
| LargeBlobs.StepKeeps | src/fido/cbor_large_blobs.c:98-162 | a step that changes the stored array stores exactly the fragments accepted since the last accepted offset 0, with the announced length |
| LargeBlobs.WriteOutcome | src/fido/cbor_large_blobs.c:98-162 | for every state: exactly when a fragment is accepted, with all limits, and what it changes |
| LargeBlobs.ReadOutcome | src/fido/cbor_large_blobs.c:83-97 | exactly when a read is answered, and with what |
| LargeBlobs.IntegralIs | src/fido/cbor_large_blobs.c:151-158 | an array longer than 17 bytes ends with half the hash of what is before |
| LargeBlobs.RunKeeps | src/fido/cbor_large_blobs.c:72-162 | in every state next offset <= expected length <= 2048, and the stored array is the first one or 17 to 2048 bytes that end with their hash when longer than 17 |
| LargeBlobs.UploadStores | src/fido/cbor_large_blobs.c:98-162 | writing an array in any non-empty fragments stores it exactly when its hash is right |
| LargeBlobs.ReadsBack | src/fido/cbor_large_blobs.c:83-97 | reading at successive offsets returns the stored array |
| LargeBlobs.LargeBlobStore.Command | src/fido/cbor_large_blobs.c:72-173 | status, response and state of one command |
| LargeBlobs.LargeBlobStore.Write | src/fido/cbor_large_blobs.c:98-162 | the write branch: checks in order, statics set before authentication |
| OtpCrc.CrcInjective | src/fido/otp.c:186-199 | equal bytes never hide a difference in the register |
| OtpCrc.AdjacentBytesDetected | src/fido/otp.c:186-199 | strings that differ only inside two adjacent bytes always have different CRCs |
| OtpCrc.ResidueAlways | src/fido/otp.c:300-302 | the CRC of a string followed by its complemented CRC, low byte first, is always 0xF0B8 |
| OtpCrc.StartsWithOnes | src/fido/otp.c:186-188 | starting with ones is starting with zeros on the string whose first two bytes are complemented |
| OtpCrc.CheckValue | src/fido/otp.c:186-199 | the digits 1 to 9 leave 6f91 |
| OtpCrc.CheckExact | src/fido/otp.c:365-368 | the check succeeds exactly when the last two bytes are the complemented CRC of the rest |
| OtpCrc.CalculateCrc | src/fido/otp.c:186-199 | the nested loops compute the CRC |
| OtpCrc.CheckCrc | src/fido/otp.c:365-368 | accepts exactly the strings that end with their complemented CRC |
| OtpCrc.AppendCrc | src/fido/otp.c:300-302 | the two bytes are written after the data and make its CRC the residue |
| OtpCrc.SendFrame | src/fido/otp.c:529-541 | the frame ends with its CRC, and the one-byte report count is its length in sevens, rounded up, modulo 256: exact up to 1785 bytes |
| Der.LenRoundTrip | pico-keys-sdk/mbedtls/library/asn1write.c:23-53 | a written length is read back for every length below 2^32, and the content begins after it |
| Der.LenMinimal | pico-keys-sdk/mbedtls/library/asn1parse.c:27-58 | no shorter field is read as the same length (X.690, section 10.1) |
| Der.LenForm | pico-keys-sdk/mbedtls/library/asn1write.c:23-53 | one byte below 128, else 128 plus the number of big-endian bytes, the first not zero (X.690, section 8.1.3) |
| Der.LenParsed | pico-keys-sdk/mbedtls/library/asn1parse.c:27-58 | exactly which length fields are read, and as what |
| Der.ElementRoundTrip | pico-keys-sdk/mbedtls/library/asn1parse.c:60-75 | tag, length and content are read back wherever the element stands |
| Der.IntAccepted | pico-keys-sdk/mbedtls/library/asn1parse.c:100-145 | the parser accepts exactly the non-empty contents without sign bit whose value is below 2^31 |
| Der.IntRoundTrip | pico-keys-sdk/mbedtls/library/asn1write.c:199-221 | non-negative integers round trip; a negative one comes back as its low byte |
| Der.IntElementRoundTrip | pico-keys-sdk/mbedtls/library/asn1parse.c:100-145 | a written INTEGER element is parsed back wherever it stands |
| Der.IntRoundTripExact | pico-keys-sdk/mbedtls/library/asn1write.c:199-221 | the round trip is the identity exactly on the non-negative integers |
| Der.IntForm | pico-keys-sdk/mbedtls/library/asn1write.c:199-221 | the content of a non-negative integer is its shortest two's complement (X.690, section 8.3) |
| Der.KnownIntegers | pico-keys-sdk/mbedtls/library/asn1write.c:199-221 | the encodings of 0, 127, 128, 256 and 5 |
| Der.BitsRoundTrip | pico-keys-sdk/mbedtls/library/asn1write.c:309-336 | a bit string comes back bit for bit with its unused bits zero |
| Der.BitsParsed | pico-keys-sdk/mbedtls/library/asn1parse.c:181-213 | exactly when a bit string is read |
| Der.KnownBits | pico-keys-sdk/mbedtls/library/asn1write.c:309-336 | the example of X.690, section 8.6.4 |
| Der.NamedBitsRoundTrip | pico-keys-sdk/mbedtls/library/asn1write.c:265-307 | a named bit string comes back with exactly its trailing zero bits removed (X.690, section 11.2.2) |
| Der.Trim | pico-keys-sdk/mbedtls/library/asn1write.c:283-304 | the bits kept end with a one, and all those dropped are zero |
| Asn1Writer.WriteLen | pico-keys-sdk/mbedtls/library/asn1write.c:23-53 | the length field is written in front of p, or does not fit and nothing is written |
| Asn1Writer.WriteLenAndTag | pico-keys-sdk/mbedtls/library/asn1write.c:68-79 | tag and length in front of a content |
| Asn1Writer.WriteTaggedInt | pico-keys-sdk/mbedtls/library/asn1write.c:199-221 | the whole integer element, or too small a buffer; nothing outside is touched |
| Asn1Writer.WriteBitstring | pico-keys-sdk/mbedtls/library/asn1write.c:309-336 | the whole bit string element, unused bits cleared |
| Asn1Writer.TrimBits | pico-keys-sdk/mbedtls/library/asn1write.c:270-304 | the backward loop finds the last one bit |
| Asn1Writer.WriteNamedBitstring | pico-keys-sdk/mbedtls/library/asn1write.c:265-307 | the element of the trimmed bit string |
| Asn1Parser.GetLen | pico-keys-sdk/mbedtls/library/asn1parse.c:27-58 | status, pointer and length, branch by branch |
| Asn1Parser.GetTag | pico-keys-sdk/mbedtls/library/asn1parse.c:60-75 | status, pointer and length after the expected tag |
| Asn1Parser.GetTaggedInt | pico-keys-sdk/mbedtls/library/asn1parse.c:100-145 | accepts exactly the non-negative values below 2^31 and leaves the pointer after the content |
| Asn1Parser.GetBitstring | pico-keys-sdk/mbedtls/library/asn1parse.c:181-213 | status, pointer, unused bits and bytes of a bit string that ends the input |

## Left out

- The limb width is fixed at 32 bits and the host is little-endian, as on the RP2040 and RP2350; other widths and hosts are not modelled.
- Operand pointers are arrays with offsets. Where the source allows operands to coincide, the model allows the same array at the same offset; other overlaps are excluded.
- MULADDC macros, constant-time selects and compares, and `mbedtls_ct_memcpy_if` are modelled by their meaning; timing is not modelled.
- `mpi_core_fill_random`, `mpi_core_random`, `bitlen`, `clz`, `add_if`, `sub_int`, `check_zero_ct`, `cond_swap` and `get_mont_r2_unsafe` would only add easy members; 2^(64 n) mod N is a parameter of the exponentiation.
- The AES tables are those `aes_gen_tables` computes; of the precomputed tables of a build with `MBEDTLS_AES_ROM_TABLES` only the boxes are compared with them. FT1 to FT3 and RT1 to RT3 are rotations of FT0 and RT0.
- Aes: hardware implementations, `rk_offset` realignment and `aes_maybe_realign` are not modelled.
- ARIA's CBC, CFB and CTR modes and AES-CFB8 repeat the modes above.
- Xts.CryptXts: key splitting for the two ciphers is not modelled, nor buffers that overlap with an offset.
- The modes take the block cipher as an abstract permutation of 16-byte blocks, and its failures are not modelled.
- Base64.Encode, Base64.Decode: source and destination do not overlap, and sizes are those of a 32-bit `size_t`.
- CBOR parsing and encoding, and the checks of pinUvAuthParam and of permissions outside setMinPINLength: requests arrive parsed and, where the command needs it, authorised.
- `credential_load`, `credential_create`, key derivation and hashing are parameters; loading is a function of id and RP id hash under a fixed device key.
- Flash is two tables of 256 files and single files. Failing flash operations, the limit on dynamic files in the file table, and file sizes above 65535 are not modelled.
- CredentialStore.Flash.Delete: a failing `delete_file` is taken to leave the file as it was; deleting an RP file succeeds.
- CredentialEnumeration.CallAstray: memory that has been given back is a parameter, any byte string; what else such a read can do, and the calls after it, are not modelled.
- Assertion: signing, extensions and the response map are one yes or no; user presence is another. Allow lists have at most 16 entries.
- PinMachine: key agreement, decryption and authentication of a request are part of the request; usage timers and the commands that use or clear token permissions, getPINRetries and getKeyAgreement are not modelled. Resetting the authenticator is not a step.
- LargeBlobs: the command reports every error to its caller as one status; the model keeps them apart. Whether a request's pinUvAuthParam verifies is part of it.
- OtpCrc: frames, slots and key strokes around the CRC are not modelled.
- Der: only non-negative integers, bit strings and named bit strings; big numbers, sequences, algorithm identifiers and `store_named_data` are not modelled. Lengths stay below 2^32.
- SHA, HMAC, HKDF, ECDH, ECDSA, ChaCha20-Poly1305, random numbers, clocks, USB, LEDs and buttons are inputs or abstract functions.
