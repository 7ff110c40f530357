# Proofs about the Apollo platform overlay for QBox

This project models the parts of the platform's device models that carry algorithms or state derived
from other state, and proves what those parts promise. One `dafny verify dfyconfig.toml` checks all of it.

Objects that the devices change in place are classes here, their loops are loops, and each method is
proved against a function of its inputs or of the old state; what the device promises is then proved
about that function. Transports become byte memories, parameters become constants, and the SHA-256
compression function is a parameter. Bytes and words are bit-vectors where the device computes with
bits, and bounded numbers where it computes with values; every place where a 32- or 64-bit width can
wrap writes the wrap out.

| files | what they model |
|---|---|
| `AesTables`, `Gf256`, `Aes`, `AesEngine`, `AesStandard` | the crypto engine's AES block functions, with its own tables, key schedule and in-place steps, and those measured byte by byte against FIPS 197 |
| `Transfer`, `Ctr`, `CtrDma` | counter mode, and the engine's chunked counter-mode DMA |
| `Octets`, `Sha256`, `HashEngine`, `StreamHash` | the two streaming SHA-256 implementations, and suspending and resuming one through its registers |
| `Modular`, `Wrappers`, `Euclid`, `Words`, `PkaSpec`, `Pka` | the public-key unit: word arithmetic, modular inverse, instructions, and the modulus it caches |
| `Curve`, `CurveLaws`, `Primality`, `PrimeCertificate` | the point operations of the signature checker, for any odd modulus and coefficients, the P-256 constants, and that the P-256 modulus is prime |
| `Lms`, `LmsStandard`, `LmsBinding` | the LMS verifier, RFC 8554 on its literal bytes with a signer, and what an accepted signature binds |
| `DecryptAccel` | the two accelerators that decipher boot images, whole or call by call |
| `Dma350` | the DMA controller's fills and copies, fast path and element loop |
| `FlashSpec`, `Flash` | the NOR flash command machine with its erased-sector map, backing file, write buffer and direct-access windows |
| `Atu` | the address translation unit and its direct-access windows |
| `EventRing` | the memory management unit's event queue |
| `Mailbox` | the doorbell frame of the message-handling unit, its register image, and the messages packed into its channels |

## What turned out to need a condition

Some promises hold only under a condition; for these the condition is proved to be exact.

- Chunked counter-mode DMA writes counter mode of the original bytes, on every memory, exactly when the
  destination is not above the source, or lies at least the whole length above it, or the length is at
  most one chunk of 1024 bytes (`CtrDma.DmaIsPlainIff`).
- The chunked copy gives what the element loop gives, on every memory, exactly when the destination is
  not above the source, or lies at least one chunk of 1024 bytes (or the whole transfer) above it, or at
  most one element moves (`Dma350.CopyPathsAgreeIff`).
- A hash written back from its registers resumes the message exactly when its length was a multiple of
  64 bytes (`HashEngine.Engine.Restore`).
- The test that drops the cached modulus measures the modulus by the width of the store. It misses a
  store exactly when the store begins in the part of the cached modulus beyond its own width
  (`PkaSpec.StoreSafeIff`, with two instructions that show it in `Pka.StaleModulus`).
- A translation window covers the part of its region that maps into the downstream offer, also where a
  lower-numbered enabled region lies inside it; there, and only there, another region decides an access
  (`Atu.WindowAgrees`, with an instance in `Atu.LowerRegionWins`). The access still ends where the window
  leads exactly when that region is allowed and has the same offset (`Atu.WindowReaches`).
- Software may write any value to the event queue's consumer register; it releases outstanding records
  only exactly when it leaves no more of them (`EventRing.ReleaseIff`).
- Loading an image into the flash does not touch the backing file. The two stay in step exactly when the
  image repeats what the file holds outside the pending interval (`FlashSpec.LoadedSync`).
- A message comes back from the mailbox cut to its length modulo 2^32, so a message of 4 GiB or more may
  come back shorter than the channels could carry (`Mailbox.RoundTripIff`).
- An operand size register within 31 bits of 2^32 makes the public-key unit compute a width of zero words,
  because the rounding sum wraps; the model follows that.

## What the definitions are measured against

Where a device computes a standard's function, the functions that its methods are proved against are
themselves proved to be the standard's, in terms that share nothing with them:

- AES: the table by its algebraic definition, a round and the expanded key in bytes, the example of
  FIPS 197 (`AesStandard`).
- SHA-256: the initial words as square roots, the padded message and the digest in bytes (`Sha256`,
  `StreamHash`).
- LMS: the hashed inputs, the signer and validity on the literal bytes of RFC 8554 (`LmsStandard`).
- P-256: sums and doubles as third points of a line, unique; the parameters in decimal (`CurveLaws`,
  `Curve.StandardParameters`).
- Register fields, instruction numbers, command bytes and flag bits appear as literal numbers in the
  lemmas and methods about them (`PkaSpec.Opcodes`, `Flash.Device.CommandThenRead`, `Atu.RegionFields`,
  `Dma350.Channel.ProgrammedFields`, `Mailbox.Frame.ReadableAt`).

## Model

| member | source | states |
|---|---|---|
| `AesTables.InvSboxUndoesSbox` | systemc-components/cc3xx/include/cc3xx_core.h:870-948 | the inverse substitution table undoes the substitution table on all 256 bytes |
| `AesTables.SboxUndoesInvSbox` | systemc-components/cc3xx/include/cc3xx_core.h:870-948 | and the other way round |
| `Gf256.XTime` | systemc-components/cc3xx/include/cc3xx_core.h:865-868 | doubling a field element: shift, and fold the lost bit back with 0x1b |
| `Gf256.Multiply` | systemc-components/cc3xx/include/cc3xx_core.h:950-963 | the shift-and-add loop computes the field product defined by recursion on the factor |
| `Gf256.ProductAdd` | systemc-components/cc3xx/include/cc3xx_core.h:950-963 | the product distributes over field addition |
| `Gf256.UnmixUndoesMix` | systemc-components/cc3xx/include/cc3xx_core.h:1030-1062 | multiplying a column by 14, 11, 13, 9 undoes multiplying it by 2, 3, 1, 1 in GF(2^8), for every column |
| `Gf256.MixUndoesUnmix` | systemc-components/cc3xx/include/cc3xx_core.h:1030-1062 | and the other way round |
| `AesStandard.SboxAlgebra` | systemc-components/cc3xx/include/cc3xx_core.h:870-948 | the substitution table is the one FIPS 197 defines: every entry is the affine image of the inverse of its index in GF(2^8) |
| `AesStandard.RoundBytes` | systemc-components/cc3xx/include/cc3xx_core.h:965-1042 | a full round, for every state and round key, byte by byte in table entries, doublings and exclusive ors |
| `Aes.ShiftRowsByRow` | systemc-components/cc3xx/include/cc3xx_core.h:979-999 | the explicit permutation moves row r of the state left by r columns, and its inverse moves it right |
| `Aes.InverseRetraces` | systemc-components/cc3xx/include/cc3xx_core.h:1111-1165 | invariant of the deciphering loop: after n inverse rounds the state is the one the cipher had n rounds from its end, with the schedule read backwards |
| `Aes.InvCipherUndoesCipher` | systemc-components/cc3xx/include/cc3xx_core.h:1111-1165 | for every 16-, 24- or 32-byte key and every block, deciphering undoes enciphering |
| `Aes.CipherUndoesInvCipher` | systemc-components/cc3xx/include/cc3xx_core.h:1111-1165 | for every such key and every block, enciphering undoes deciphering |
| `AesEngine.SubBytesInPlace` | systemc-components/cc3xx/include/cc3xx_core.h:972-977 | substitutes all sixteen bytes in place |
| `AesEngine.ShiftRowsInPlace` | systemc-components/cc3xx/include/cc3xx_core.h:979-999 | the rotations with temporaries are the row shift of FIPS 197 |
| `AesEngine.InvShiftRowsInPlace` | systemc-components/cc3xx/include/cc3xx_core.h:1008-1028 | the opposite rotations are the inverse row shift |
| `AesEngine.MixByteShortcut` | systemc-components/cc3xx/include/cc3xx_core.h:1030-1042 | the xor-of-all shortcut gives the matrix product of the column |
| `AesEngine.MixColumnsInPlace` | systemc-components/cc3xx/include/cc3xx_core.h:1030-1042 | mixes every column in place as the matrix product |
| `AesEngine.InvMixColumnsInPlace` | systemc-components/cc3xx/include/cc3xx_core.h:1044-1062 | multiplies every column by the inverse matrix in place |
| `AesEngine.RoundConstantTable` | systemc-components/cc3xx/include/cc3xx_core.h:1064-1109 | the table of round constants holds the powers of 2 in GF(2^8) |
| `AesStandard.RoundCounts` | systemc-components/cc3xx/include/cc3xx_core.h:1064-1082 | ten, twelve or fourteen rounds for 16-, 24- and 32-byte keys |
| `AesStandard.ScheduleWords` | systemc-components/cc3xx/include/cc3xx_core.h:1064-1109 | for every key of every length, each word of the expanded key in bytes: the key itself, then the word nk places back combined with the previous word, which is rotated, substituted and combined with a power of two at multiples of nk, and substituted at word 4 of 8 for 32-byte keys |
| `AesStandard.ExpandedPrefix` | systemc-components/cc3xx/include/cc3xx_core.h:1064-1109 | expanding further leaves the words already there |
| `AesStandard.Example` | systemc-components/cc3xx/include/cc3xx_core.h:1064-1165 | the example of FIPS 197, appendix C.1: that key and block give that result, and back |
| `AesEngine.ExpandKey` | systemc-components/cc3xx/include/cc3xx_core.h:1064-1109 | the buffer holds that expanded key with that many rounds, and other key lengths are refused |
| `AesEngine.EncryptBlock` | systemc-components/cc3xx/include/cc3xx_core.h:1111-1137 | computes the cipher of FIPS 197, section 5.1, or refuses the key length |
| `AesEngine.DecryptBlock` | systemc-components/cc3xx/include/cc3xx_core.h:1139-1165 | computes the inverse cipher of section 5.3, or refuses the key length |
| `Ctr.IncrementValue` | systemc-components/cc3xx/include/cc3xx_core.h:1167-1174 | the carry loop adds one to the big-endian counter modulo 256^n |
| `Ctr.CounterAtValue` | systemc-components/cc3xx/include/cc3xx_core.h:1167-1174 | n increments add n modulo 2^128 |
| `Ctr.CtrByte` | systemc-components/cc3xx/include/cc3xx_core.h:50-90 | byte by byte: data combined with byte p mod 16 of the encipherment of the block that stands for the first counter plus p / 16 |
| `Ctr.IncrementCounter` | systemc-components/cc3xx/include/cc3xx_core.h:1167-1174 | the loop from the last byte, stopping at the first byte that does not wrap, is that increment in place |
| `Ctr.CtrBuffer` | systemc-components/cc3xx/include/cc3xx_core.h:50-90 | for every length and offset below 16 the output is the input combined with the key stream from that offset on; other offsets and key lengths are refused |
| `Ctr.CtrXorTwice` | systemc-components/cc3xx/include/cc3xx_core.h:50-90 | enciphering twice from the same counter and offset gives the data back |
| `Ctr.Rebase` | systemc-components/cc3xx/include/cc3xx_core.h:50-90 | a stream may be started over at any block from that block's counter |
| `CtrDma.Engine.CtrXcrypt` | systemc-components/cc3xx/include/cc3xx_core.h:1456-1506 | memory holds the chunks up to the first one whose range leaves it, transformed in turn; without such a fault the stored counter has advanced by ceil(len/16), and with one the counter and the status registers keep their values |
| `CtrDma.Engine.Key` | systemc-components/cc3xx/include/cc3xx_core.h:1432-1454 | the size field selects the first 16, 24 or 32 bytes of the key registers |
| `CtrDma.FaultIff` | systemc-components/cc3xx/include/cc3xx_core.h:1456-1506 | no chunk faults exactly when both ranges lie in the memory, and then every chunk is transformed |
| `CtrDma.HarmlessIsPlain` | systemc-components/cc3xx/include/cc3xx_core.h:1456-1506 | when the destination is not above the source, or is at least the whole length above it, or the length is at most 1024, the chunked transfer writes counter mode of the original bytes |
| `CtrDma.HarmfulShows` | systemc-components/cc3xx/include/cc3xx_core.h:1456-1506 | for any other overlap some memory gets a different result |
| `CtrDma.DmaIsPlainIff` | systemc-components/cc3xx/include/cc3xx_core.h:1456-1506 | so the two agree on all memories exactly for those ranges |
| `CtrDma.InPlaceTwice` | systemc-components/cc3xx/include/cc3xx_core.h:1456-1506 | run again in place with the counter put back, the transfer restores the memory |
| `CtrDma.DmaLeavesRest` | systemc-components/cc3xx/include/cc3xx_core.h:1456-1506 | bytes outside the destination keep their value |
| `Sha256.FoldAppend` | qemu-components/rse_cpu_accel/include/rse_lms_accel.h:83-102 | compressing the blocks of a concatenation is compressing the blocks of its parts in turn |
| `Sha256.ZeroCountLeast` | qemu-components/rse_cpu_accel/include/rse_lms_accel.h:104-116 | the padding uses the least number of zero bytes that leaves room for the length |
| `Sha256.InitialIsRoots` | qemu-components/rse_cpu_accel/include/rse_lms_accel.h:73-81 | the initial words are the first 32 bits of the fractions of the square roots of the first eight primes (FIPS 180-4, section 5.3.3) |
| `Sha256.PaddedBytes` | qemu-components/rse_cpu_accel/include/rse_lms_accel.h:104-116 | the padded message byte by byte: the message, 0x80, zeros up to the last eight bytes of a 64-byte chunk, and there the bit length modulo 2^64, most significant byte first |
| `HashEngine.Engine.Update` | systemc-components/cc3xx/include/cc3xx_core.h:1341-1370 | however much arrives, the engine has then absorbed the old message and the new bytes; a finished or stopped engine ignores them |
| `HashEngine.Engine.Finish` | systemc-components/cc3xx/include/cc3xx_core.h:1372-1398 | the digest is the compression fold over the padded message, and the length registers hold the message's length modulo 2^64 |
| `HashEngine.Engine.WriteControl` | systemc-components/cc3xx/include/cc3xx_core.h:1726-1768 | a write that selects SHA-256 starts an empty message; any other stops the engine |
| `HashEngine.Engine.WriteHashWord` | systemc-components/cc3xx/include/cc3xx_core.h:1726-1768 | a hash word written while the engine is active replaces that word of the state |
| `HashEngine.Engine.Restore` | systemc-components/cc3xx/include/cc3xx_core.h:1726-1768 | saved words and length written back resume the message exactly when its length was a multiple of 64; otherwise the unprocessed tail is lost |
| `HashEngine.Engine.DmaInput` | systemc-components/cc3xx/include/cc3xx_core.h:1770-1806 | input DMA absorbs the memory range, or its whole 1024-byte chunks up to the first failing read, and finishes only after a complete transfer with automatic padding |
| `HashEngine.InterruptAndResume` | systemc-components/cc3xx/include/cc3xx_core.h:1726-1806 | a hash interrupted after a multiple of 64 bytes, with another message hashed in between, and resumed from its registers on the same engine or a second one, ends with the digest of the whole message; so does the other |
| `StreamHash.Hasher.Update` | qemu-components/rse_cpu_accel/include/rse_lms_accel.h:83-102 | the second implementation absorbs the same concatenation |
| `StreamHash.Hasher.Finish` | qemu-components/rse_cpu_accel/include/rse_lms_accel.h:104-123 | and its digest bytes are the fold over the padded message, most significant byte first |
| `StreamHash.DigestBytesAre` | qemu-components/rse_cpu_accel/include/rse_lms_accel.h:104-123 | the 32 digest bytes are the eight words, most significant byte first |
| `StreamHash.DigestOfChunks` | qemu-components/rse_cpu_accel/include/rse_lms_accel.h:211-219 | hashing pieces hashes what they join up to, however it is cut |
| `StreamHash.EnginesAgree` | qemu-components/rse_cpu_accel/include/rse_lms_accel.h:67-130 | both implementations give the same digest of the same message, each fed its own pieces |
| `Lms.ChecksumFits` | qemu-components/rse_cpu_accel/include/rse_lms_accel.h:244-250 | the sum of complements fits its two bytes, so the truncating cast loses nothing |
| `Lms.DigitsAntichain` | qemu-components/rse_cpu_accel/include/rse_lms_accel.h:244-250 | for two distinct digests neither 34-digit vector is pointwise at most the other |
| `Lms.ChainCompose` | qemu-components/rse_cpu_accel/include/rse_lms_accel.h:253-270 | a chain run from a to b and then from b to c is the chain run from a to c |
| `Lms.LmotsCandidate` | qemu-components/rse_cpu_accel/include/rse_lms_accel.h:221-279 | the digit and chain loops compute the candidate key, or refuse a malformed signature |
| `LmsStandard.LayoutInjective` | qemu-components/rse_cpu_accel/include/rse_lms_accel.h:221-352 | what is hashed determines the key identifier, the kind of input (chain, message, one-time key, leaf, interior node), its place and its contents, so no two uses share an input |
| `LmsStandard.VerifierInputs` | qemu-components/rse_cpu_accel/include/rse_lms_accel.h:221-352 | the five inputs the verifier hashes are byte for byte those of RFC 8554, sections 4.3 to 4.6 and 5.3 |
| `LmsStandard.RunIsChain` | qemu-components/rse_cpu_accel/include/rse_lms_accel.h:253-270 | the verifier's chain from one position to another is the standard's |
| `LmsStandard.DigitsAre` | qemu-components/rse_cpu_accel/include/rse_lms_accel.h:244-250 | the verifier's 34 digits are the digest's bytes and the two bytes of the sum by which they stay below 255 |
| `LmsStandard.CandidateIsKey` | qemu-components/rse_cpu_accel/include/rse_lms_accel.h:221-279 | the verifier's candidate is the key that the standard derives from the one-time signature, or none for another type |
| `LmsStandard.KeyFromHonest` | qemu-components/rse_cpu_accel/include/rse_lms_accel.h:221-279 | each revealed chain value continues the signer's chain to position 255, so an honest one-time signature leads to the leaf's key |
| `LmsStandard.ClimbReachesRoot` | qemu-components/rse_cpu_accel/include/rse_lms_accel.h:319-352 | climbing an honest authentication path recomputes every ancestor with the right left and right, up to the root |
| `Lms.Verify` | qemu-components/rse_cpu_accel/include/rse_lms_accel.h:281-355 | the verifier accepts exactly the signatures whose candidate climbs to the root in the public key |
| `LmsStandard.AcceptsIff` | qemu-components/rse_cpu_accel/include/rse_lms_accel.h:281-355 | for every hash, key, message and signature, `Verify` accepts exactly what RFC 8554, section 5.4.2, calls valid, with lengths, types and layouts as literal bytes |
| `LmsStandard.HonestValid` | qemu-components/rse_cpu_accel/include/rse_lms_accel.h:281-355 | for any hash, key, message and leaf below 1024, the signature of a signer built from the standard's own bytes is valid |
| `LmsStandard.HonestAccepted` | qemu-components/rse_cpu_accel/include/rse_lms_accel.h:281-355 | so the verifier accepts it |
| `LmsBinding.ChainBinds` | qemu-components/rse_cpu_accel/include/rse_lms_accel.h:253-270 | two chains that end at the same value started at the same value, unless two hashed inputs collide |
| `LmsBinding.ClimbBinds` | qemu-components/rse_cpu_accel/include/rse_lms_accel.h:319-352 | two climbs from one place to one root start at the same node and use the same path, unless two hashed inputs collide |
| `LmsBinding.SameLeafBinds` | qemu-components/rse_cpu_accel/include/rse_lms_accel.h:281-355 | two signatures accepted for one leaf have the same path and the same chain ends, unless two hashed inputs collide |
| `LmsBinding.SecondSignatureInverts` | qemu-components/rse_cpu_accel/include/rse_lms_accel.h:221-355 | if their message digests differ, the second signature holds a value from which at least one chain step leads to a value the first one revealed |
| `DecryptAccel.PartsJoin` | qemu-components/rse_cpu_accel/include/rse_cpu_accel.h:1126-1258 | deciphering two neighbouring parts of a payload is deciphering both at once |
| `DecryptAccel.ChunkCounterIsReached` | qemu-components/rse_cpu_accel/include/rse_cpu_accel.h:1209-1245 | the counter a chunk starts from is the one the whole image reaches at that block |
| `DecryptAccel.Accel.RecordLoad` | qemu-components/rse_cpu_accel/include/rse_cpu_accel.h:540-605 | a supported load stores the snapshot and re-arms the whole-image path for that image only |
| `DecryptAccel.Accel.FindImage` | qemu-components/rse_cpu_accel/include/rse_cpu_accel.h:850-895 | the first recorded image whose payload holds the call's buffer at its offset |
| `DecryptAccel.Accel.Refusals` | qemu-components/rse_cpu_accel/include/rse_cpu_accel.h:1126-1258 | a call is refused exactly for an unknown slot, a size above the limit, a block offset above 15 or a null buffer with bytes to write |
| `DecryptAccel.Accel.SlotsShareKeys` | qemu-components/rse_cpu_accel/include/rse_cpu_accel.h:789-792 | slots that agree in the low byte find the same key |
| `DecryptAccel.Accel.TryWholeImage` | qemu-components/rse_cpu_accel/include/rse_cpu_accel.h:897-1058 | deciphers one whole payload at offset 0, skips later calls for it, and does nothing in every other case; at most one payload decryption between two loads |
| `DecryptAccel.Accel.TryChunk` | qemu-components/rse_cpu_accel/include/rse_cpu_accel.h:1126-1258 | deciphers the buffer from the counter of the block it starts in, or leaves memory alone |
| `DecryptAccel.Accel.DecryptByImage` | qemu-components/rse_cpu_accel/include/rse_cpu_accel.h:897-1058 | any split of an image into calls leaves the payload deciphered exactly once |
| `DecryptAccel.Accel.DecryptByChunks` | qemu-components/rse_cpu_accel/include/rse_cpu_accel.h:1126-1258 | any split into consecutive calls, with the block offset equal to the offset modulo 16, leaves the payload deciphered |
| `DecryptAccel.PathsAgree` | qemu-components/rse_cpu_accel/include/rse_cpu_accel.h:897-1258 | with the same key and the same memory, the two paths leave the same bytes, however each is split into calls |
| `Dma350.FillPathsAgree` | systemc-components/dma350/include/dma350.h:169-209 | for every count, the 256-byte-chunk fill and the element loop with increment 1 have the same verdict, and on success the same memory |
| `Dma350.CopyPathsAgree` | systemc-components/dma350/include/dma350.h:211-269 | the 1024-byte-chunk copy and the element loop with increments 1 agree for harmless ranges, for every count and element size |
| `Dma350.CopyPathsDiffer` | systemc-components/dma350/include/dma350.h:211-269 | for any other overlap some memory tells them apart |
| `Dma350.CopyPathsAgreeIff` | systemc-components/dma350/include/dma350.h:211-269 | so they agree on all memories exactly when the destination is not above the source, or is at least min(1024, bytes) above it, or at most one element moves |
| `Dma350.StridedFillBytes` | systemc-components/dma350/include/dma350.h:308-324 | for any increment, a fill succeeds exactly when all its elements lie in memory, and then every byte of an element is the fill value's byte of its phase and no other byte changes |
| `Dma350.ElementCopyBytes` | systemc-components/dma350/include/dma350.h:211-269 | for any increments, a copy whose elements keep apart moves each source element to its destination element |
| `Dma350.ElementCopyRest` | systemc-components/dma350/include/dma350.h:211-269 | and leaves every byte outside the destination elements alone |
| `Dma350.CompletionBits` | systemc-components/dma350/include/dma350.h:283-301 | done shows in bit 16 and failure in bit 17, each with its own enabled interrupt bit |
| `Dma350.Channel.ProgrammedFields` | systemc-components/dma350/include/dma350.h:133-180 | addresses, counts, increments, element size and kind written into the registers are the ones the channel decodes |
| `Dma350.Channel.ExecuteFill` | systemc-components/dma350/include/dma350.h:169-209 | a fill leaves the memory and the verdict of the chunk loop or of the strided loop, by its increment |
| `Dma350.Channel.ExecuteCopy` | systemc-components/dma350/include/dma350.h:211-269 | a copy leaves the memory and the verdict of the chunk loop or of the element loop, by its increments |
| `Dma350.Channel.Command` | systemc-components/dma350/include/dma350.h:271-352 | an enabled command runs the path the increments choose, to the end or to its first failing access; where the fast paths fit, memory and status are what the element loops alone would leave |
| `Euclid.RunResult` | systemc-components/cc3xx/include/cc3xx_core.h:542-552 | the loop ends with the greatest common divisor's unit test, a combination of the value, and a coefficient of at most half the modulus |
| `Euclid.PkaModInverse` | systemc-components/cc3xx/include/cc3xx_core.h:532-563 | for every modulus above 1 the loop ends, `ok` is set exactly when value and modulus are coprime, the result lies in [1, m) and times the value is 1 modulo m; one correction of a negative coefficient is enough |
| `Euclid.EcdsaModInverse` | qemu-components/rse_cpu_accel/include/rse_p256_ecdsa.h:105-127 | the signature checker's loop returns the same inverse |
| `Euclid.InverseCorrect` | qemu-components/rse_cpu_accel/include/rse_p256_ecdsa.h:105-127 | the common result is an inverse exactly for coprime numbers, and 0 otherwise |
| `Euclid.InverseUnique` | qemu-components/rse_cpu_accel/include/rse_p256_ecdsa.h:105-127 | there is at most one inverse in [1, m) |
| `Euclid.PositiveMod` | systemc-components/cc3xx/include/cc3xx_core.h:499-510 | correcting a negative truncated remainder once gives the least non-negative residue |
| `Curve.ThirdPoint` | qemu-components/rse_cpu_accel/include/rse_p256_ecdsa.h:140-177 | a line with slope l through a curve point, whose quotient vanishes at the second abscissa, meets the cubic again at the reflected third point, modulo m |
| `Curve.Chord` | qemu-components/rse_cpu_accel/include/rse_p256_ecdsa.h:155-177 | the slope through two curve points makes that quotient vanish |
| `Curve.Tangent` | qemu-components/rse_cpu_accel/include/rse_p256_ecdsa.h:140-153 | so does the slope of the tangent |
| `Curve.DoubleStays` | qemu-components/rse_cpu_accel/include/rse_p256_ecdsa.h:140-153 | doubling a reduced curve point gives infinity exactly for y = 0, and otherwise a reduced curve point, if 2y is coprime to p |
| `Curve.SumStays` | qemu-components/rse_cpu_accel/include/rse_p256_ecdsa.h:155-177 | adding two good points gives a good point whenever the denominator handed to the inverse is coprime to p |
| `Curve.PrimeSumStays` | qemu-components/rse_cpu_accel/include/rse_p256_ecdsa.h:140-177 | over a prime modulus both operations are closed, without further premises |
| `Primality.Criterion` | qemu-components/rse_cpu_accel/include/rse_p256_ecdsa.h:49-54 | a number is prime if some element has an order, made of one or two primes, above its square root |
| `Curve.P256IsPrime` | qemu-components/rse_cpu_accel/include/rse_p256_ecdsa.h:49-54 | the modulus of P-256 is prime |
| `Curve.P256Closed` | qemu-components/rse_cpu_accel/include/rse_p256_ecdsa.h:140-193 | on P-256 sums, doubles and scalar multiples of good points are good, with no premise |
| `Curve.GeneratorGood` | qemu-components/rse_cpu_accel/include/rse_p256_ecdsa.h:49-84 | the base point of P-256 is reduced and on the curve |
| `Curve.IsOnCurve` | qemu-components/rse_cpu_accel/include/rse_p256_ecdsa.h:129-138 | the test accepts exactly the points that satisfy the curve equation |
| `Curve.StandardParameters` | qemu-components/rse_cpu_accel/include/rse_p256_ecdsa.h:49-54 | the prime and the order are the decimal numbers of FIPS 186-4, section D.1.2.3 |
| `CurveLaws.SumIsThird` | qemu-components/rse_cpu_accel/include/rse_p256_ecdsa.h:155-177 | the sum of two points with different abscissas is the one reduced point that lies, negated, on the line through them, with abscissas that add up to the square of the slope |
| `CurveLaws.DoubleIsThird` | qemu-components/rse_cpu_accel/include/rse_p256_ecdsa.h:140-153 | the double of a point is the one reduced point that the tangent gives in the same way |
| `CurveLaws.SpecialSums` | qemu-components/rse_cpu_accel/include/rse_p256_ecdsa.h:140-177 | infinity is neutral on both sides, opposite points add up to infinity, a point added to itself is doubled, and doubling infinity or a point with y = 0 gives infinity |
| `CurveLaws.SumCommutes` | qemu-components/rse_cpu_accel/include/rse_p256_ecdsa.h:155-177 | over a prime modulus points of the curve may be added in either order |
| `Curve.PointDouble` | qemu-components/rse_cpu_accel/include/rse_p256_ecdsa.h:140-153 | the method computes the double that `CurveLaws.DoubleIsThird` and `CurveLaws.SpecialSums` pin down, for every point |
| `Curve.PointAdd` | qemu-components/rse_cpu_accel/include/rse_p256_ecdsa.h:155-177 | the method computes the sum that `CurveLaws.SumIsThird` and `CurveLaws.SpecialSums` pin down, for every two points |
| `Curve.LadderIsMultiple` | qemu-components/rse_cpu_accel/include/rse_p256_ecdsa.h:179-193 | over any associative operation with a unit, the double-and-add loop gives the scalar multiple |
| `Curve.ScalarMultiply` | qemu-components/rse_cpu_accel/include/rse_p256_ecdsa.h:179-193 | reduces the scalar modulo the group order and runs that loop; over a prime p every multiple of a good point is good |
| `Words.WordsToInt` | systemc-components/cc3xx/include/cc3xx_core.h:453-463 | the shift-and-add loop from the top word gives the number the words stand for |
| `Words.IntToWords` | systemc-components/cc3xx/include/cc3xx_core.h:465-485 | the result is the number's lowest words; a negative number wraps at the width |
| `Words.ValueOfWords` | systemc-components/cc3xx/include/cc3xx_core.h:453-485 | cutting into words and reading back keeps the number modulo 2^(32w) |
| `Words.WordsOfValue` | systemc-components/cc3xx/include/cc3xx_core.h:453-485 | reading words and cutting again gives the same words |
| `Words.AddWords` | systemc-components/cc3xx/include/cc3xx_core.h:596-611 | result plus carry at the width is the exact sum, at every width |
| `Words.SubWords` | systemc-components/cc3xx/include/cc3xx_core.h:613-629 | result minus borrow at the width is the exact difference, at every width |
| `Words.ShiftWords` | systemc-components/cc3xx/include/cc3xx_core.h:565-594 | both fills and both directions equal the arithmetic shift with ones or zeros in the vacated bits, for every amount |
| `Words.PowMod` | systemc-components/cc3xx/include/cc3xx_core.h:512-530 | square-and-multiply equals base^exponent modulo the modulus |
| `PkaSpec.DecodeFields` | systemc-components/cc3xx/include/cc3xx_core.h:657-671 | the fields a driver assembles into an instruction word are the ones the unit decodes, whatever the six unused bits hold |
| `PkaSpec.Opcodes` | systemc-components/cc3xx/include/cc3xx_core.h:654-824 | by number: which instructions sign-extend, use the modulus, shift, or store nothing because they are unknown |
| `PkaSpec.LenWordsLeast` | systemc-components/cc3xx/include/cc3xx_core.h:347-360 | a size register stands for the least number of words that holds its bits, at most 1536, and at least one except that the rounding sum wraps within 31 bits of 2^32 |
| `PkaSpec.StatusBits` | systemc-components/cc3xx/include/cc3xx_core.h:631-652 | sign, carry, zero and divide-by-zero each show in their own status bit, and the zero bit tells exactly whether the result is 0 |
| `PkaSpec.SumExact` | systemc-components/cc3xx/include/cc3xx_core.h:690-693 | an ADD instruction's result and carry flag make up the exact sum |
| `PkaSpec.DifferenceExact` | systemc-components/cc3xx/include/cc3xx_core.h:705-708 | a SUB instruction's result and borrow flag make up the exact difference |
| `PkaSpec.ProductHalves` | systemc-components/cc3xx/include/cc3xx_core.h:748-758 | MULHIGH times 2^(32w) plus MULLOW is the full product, and MULLOW's carry tells whether MULHIGH is nonzero |
| `PkaSpec.DivisionExact` | systemc-components/cc3xx/include/cc3xx_core.h:759-777 | quotient times divisor plus the remainder left in the operand register is the dividend, with the remainder below the divisor; division by zero is flagged and restores the operand |
| `PkaSpec.ModularSumExact` | systemc-components/cc3xx/include/cc3xx_core.h:694-722 | MODADD and MODSUB deliver the residue in [0, N) |
| `PkaSpec.ModularProductExact` | systemc-components/cc3xx/include/cc3xx_core.h:778-795 | MODMUL, MODEXP and REDUCTION deliver the residue in [0, N) |
| `PkaSpec.InverseExact` | systemc-components/cc3xx/include/cc3xx_core.h:796-804 | MODINV flags failure exactly when there is no inverse, and otherwise delivers it |
| `PkaSpec.CompareByXor` | systemc-components/cc3xx/include/cc3xx_core.h:733-737 | the exclusive or of two operands is zero exactly when they are equal |
| `PkaSpec.LogicBits` | systemc-components/cc3xx/include/cc3xx_core.h:723-737 | instructions 8, 9 and 10 are the conjunction, disjunction and difference of every bit of every word |
| `PkaSpec.ShiftExact` | systemc-components/cc3xx/include/cc3xx_core.h:738-747 | instructions 12 to 15 divide or multiply by a power of two, with zeros or ones coming in, at every width and amount |
| `PkaSpec.ImmediateWords` | systemc-components/cc3xx/include/cc3xx_core.h:397-416 | a five-bit immediate, filled with its sign, is that number in two's complement at the width |
| `PkaSpec.StoreKeepsCache` | systemc-components/cc3xx/include/cc3xx_core.h:424-435 | a store that the overlap test cannot miss leaves the cached modulus right or dropped |
| `PkaSpec.StoreSafeIff` | systemc-components/cc3xx/include/cc3xx_core.h:424-435 | the overlap test is sound for every stored value exactly when the store does not start in the part of the cached modulus beyond its own width |
| `PkaSpec.NarrowStoreMissed` | systemc-components/cc3xx/include/cc3xx_core.h:424-435 | on the unit's 1536 words, a one-word store into the upper word of a cached two-word modulus leaves a stale cache |
| `Pka.StaleModulus` | systemc-components/cc3xx/include/cc3xx_core.h:424-435 | two instructions that the unit executes, of two words and of one, leave a cached modulus that the memory does not hold |
| `Pka.Unit.ModulusValue` | systemc-components/cc3xx/include/cc3xx_core.h:487-497 | cached or read afresh, the modulus is the one the state defines, and it is then cached |
| `Pka.Unit.ModulusIsFresh` | systemc-components/cc3xx/include/cc3xx_core.h:487-497 | in a coherent state that is the number freshly loaded at register 0 |
| `Pka.Unit.StoreOperand` | systemc-components/cc3xx/include/cc3xx_core.h:424-435 | stores every word that lies in memory and drops the cache when the overlap test says so |
| `Pka.Unit.Execute` | systemc-components/cc3xx/include/cc3xx_core.h:654-824 | memory, flags, the remainder's register and the cache are those of the instruction's arithmetic and stores; a coherent cache stays coherent if the stores are safe |
| `Pka.Unit.OperandIs` | systemc-components/cc3xx/include/cc3xx_core.h:397-416 | an operand is the register's words, zero beyond the memory, or the immediate's residue at the width |
| `Pka.Unit.MemoryWords` | systemc-components/cc3xx/include/cc3xx_core.h:654-824 | word by word: a result lands at its register unless discarded or unknown, a division's remainder at the left operand's register unless that is an immediate, and nothing else changes |
| `Pka.Unit.Subtraction` | systemc-components/cc3xx/include/cc3xx_core.h:654-824 | subtracting register from register leaves left minus right, modulo the width, at the result register |
| `Pka.Unit.RightShift` | systemc-components/cc3xx/include/cc3xx_core.h:738-747 | a right shift divides by two to the power of its field plus one |
| `Pka.Unit.HostLoad` | systemc-components/cc3xx/include/cc3xx_core.h:1882-1968 | an address and words written through registers 0x0d4 and 0x0d8 are found in memory from that address on, and nothing else changes there |
| `Pka.Unit.DriverRules` | systemc-components/cc3xx/include/cc3xx_core.h:424-435 | an instruction's stores are safe when no stored operand is narrower than the cached modulus and no address wraps |
| `Pka.Unit.WriteRegister` | systemc-components/cc3xx/include/cc3xx_core.h:1882-1968 | every aligned write has its stated effect on memory, operand and size registers, write address, status and cache, and keeps a coherent cache coherent |
| `Pka.Unit.Run` | systemc-components/cc3xx/include/cc3xx_core.h:1882-1968 | on any run of aligned writes in which every instruction, when its turn comes, stores nothing narrower than the cached modulus and no address wraps, a coherent cache stays coherent |
| `FlashSpec.MarkedSound` | systemc-components/strata_flash_j3/include/strata_flash_j3.h:522-556 | clearing the entries of sectors that now hold a byte other than 0xff keeps every set entry true |
| `FlashSpec.MarkedWider` | systemc-components/strata_flash_j3/include/strata_flash_j3.h:537-556 | marking only the changed part marks the same entries as marking the whole range |
| `FlashSpec.MarkedUnique` | systemc-components/strata_flash_j3/include/strata_flash_j3.h:522-556 | the array and the old map determine the new map, so the one-byte path and the loop reach the same one |
| `FlashSpec.AlreadyErased` | systemc-components/strata_flash_j3/include/strata_flash_j3.h:857-878 | a sector whose entry is set is all 0xff already, so skipping the erase changes nothing |
| `FlashSpec.FlushedSync` | systemc-components/strata_flash_j3/include/strata_flash_j3.h:655-679 | a flush leaves nothing pending and the file equal to the array |
| `FlashSpec.RangeWrittenSync` | systemc-components/strata_flash_j3/include/strata_flash_j3.h:681-746 | deferred or not, writing a changed range keeps the file equal to the array outside the pending interval |
| `FlashSpec.IntervalKept` | systemc-components/strata_flash_j3/include/strata_flash_j3.h:681-746 | the deferred write that reaches a nonzero interval flushes, so fewer than the interval are ever waiting; before that the file is untouched and the pending interval holds the range |
| `FlashSpec.SectorCountCovers` | systemc-components/strata_flash_j3/include/strata_flash_j3.h:448-487 | the map has an entry for exactly the sectors that hold a byte |
| `FlashSpec.LoadedSync` | systemc-components/strata_flash_j3/include/strata_flash_j3.h:1418-1429 | a load bypasses the file, and keeps it in step exactly when it loads what the file holds or has yet to take |
| `Flash.Device.WindowsReadTheArray` | systemc-components/strata_flash_j3/include/strata_flash_j3.h:1476-1546 | an outstanding window implies read-array mode with no pending command, and reads what a bus read returns |
| `Flash.Device.EnsureStorage` | systemc-components/strata_flash_j3/include/strata_flash_j3.h:162-170 | the array starts all 0xff, with every sector marked erased |
| `Flash.Device.RebuildMap` | systemc-components/strata_flash_j3/include/strata_flash_j3.h:466-487 | a rebuilt map is exact: an entry is set if and only if its sector is all 0xff, the short last sector included |
| `Flash.Device.RefreshRange` | systemc-components/strata_flash_j3/include/strata_flash_j3.h:497-520 | after a load the recomputed entries keep the map sound |
| `Flash.Device.ProgramByteFast` | systemc-components/strata_flash_j3/include/strata_flash_j3.h:788-805 | the one-byte path meets the general loop's contract for array, map and file |
| `Flash.Device.ProgramLoop` | systemc-components/strata_flash_j3/include/strata_flash_j3.h:807-842 | bits are cleared (or set where 0xff sets them), the map loses exactly the sectors with a byte other than 0xff in the range, and the file stays in step |
| `Flash.Device.EraseSector` | systemc-components/strata_flash_j3/include/strata_flash_j3.h:857-878 | that sector ends all 0xff and marked, every other byte and entry as before, with or without the early exit; the file stays in step |
| `Flash.Device.WriteBackingRange` | systemc-components/strata_flash_j3/include/strata_flash_j3.h:681-708 | writes through, or widens the pending interval and flushes at the configured count |
| `Flash.Device.CollectWriteBuffer` | systemc-components/strata_flash_j3/include/strata_flash_j3.h:940-968 | data inside the buffer is placed and marked written; data that starts outside clears the buffer |
| `Flash.Device.ConfirmWriteBuffer` | systemc-components/strata_flash_j3/include/strata_flash_j3.h:970-985 | a complete buffer is programmed at its base; an incomplete one is dropped |
| `Flash.Device.CommandThenRead` | systemc-components/strata_flash_j3/include/strata_flash_j3.h:1034-1129 | for every command byte written to a device that is idle or waits for a confirmation, what reads then show and what is pending: 0x90 gives 0x89 and 0x18 at 0 and 4, 0x98 gives 0x51, 0x52, 0x59 from 0x10, 0x70, 0x50 and 0xe8 give 0x80, 0x40, 0x20 and 0x60 wait, 0xff and unknown bytes show the array; 0xd0 or 0x01 confirm an erase or a lock |
| `Flash.Device.ProgramSequence` | systemc-components/strata_flash_j3/include/strata_flash_j3.h:779-842 | 0x40 and then data clears the data's zero bits, byte by byte, or with the options sets a byte of 0xff or erases the sector it starts |
| `Flash.Device.WriteInRange` | systemc-components/strata_flash_j3/include/strata_flash_j3.h:1034-1129 | each write has exactly its command's effect on array, mode and pending command, no window survives it, and coherence is kept; what the command bytes do is stated by `Flash.Device.CommandThenRead` and the sequences |
| `Flash.Device.Write` | systemc-components/strata_flash_j3/include/strata_flash_j3.h:1131-1187 | an access outside the array is refused and at most sets the blank storage up; any other write has its command's effect, on blank storage none, and ends with no window outstanding |
| `Flash.Device.Read` | systemc-components/strata_flash_j3/include/strata_flash_j3.h:1131-1187 | a bus read returns, byte for byte, what the current mode shows, and changes no byte |
| `Flash.Device.Flush` | systemc-components/strata_flash_j3/include/strata_flash_j3.h:655-679 | after a flush outside a write nothing is pending and the file holds the whole array |
| `Flash.Device.GetDirectMemPtr` | systemc-components/strata_flash_j3/include/strata_flash_j3.h:1476-1546 | a window is granted exactly in read-array mode with no pending command, for a read inside a grantable stretch; it holds the request, lies in the array, and is taken from the file only after a flush |
| `Flash.Device.LoadImage` | systemc-components/strata_flash_j3/include/strata_flash_j3.h:1418-1429 | the image replaces its range of the array and the map stays sound; the file stays in step exactly when the image agrees with it; a range outside the array is ignored |
| `Flash.Device.SetSectorSize` | systemc-components/strata_flash_j3/include/strata_flash_j3.h:424-428 | a new sector size rebuilds an exact map |
| `Flash.Device.SetDeferral` | systemc-components/strata_flash_j3/include/strata_flash_j3.h:414-423 | changing the deferral flushes first: the file then holds the whole array |
| `Flash.Device.Run` | systemc-components/strata_flash_j3/include/strata_flash_j3.h:1034-1187 | on every run of writes, reads, window requests, loads and parameter changes the map stays sound; without a load, file and windows stay in agreement with the array too |
| `Flash.Device.BufferedSequence` | systemc-components/strata_flash_j3/include/strata_flash_j3.h:918-985 | a buffered program sequence, its data cut into consecutive writes of any sizes, programs exactly the data at the offset |
| `Flash.Device.EraseSequence` | systemc-components/strata_flash_j3/include/strata_flash_j3.h:1034-1129 | 0x20 and then 0xd0 set every byte of the addressed sector to 0xff and no other |
| `Atu.Apply` | systemc-components/rse_atu/include/rse_atu.h:441-469 | adding a two's-complement offset gives the exact sum, refused exactly when it leaves the 64-bit space |
| `Atu.SecurityTable` | systemc-components/rse_atu/include/rse_atu.h:180-218 | which of the four domain bits each pair of output attribute fields selects, and the reserved encoding that is refused |
| `Atu.BuildFields` | systemc-components/rse_atu/include/rse_atu.h:117-130 | page size and region count come from their fields of the build register, with at most 32 regions |
| `Atu.RegionFields` | systemc-components/rse_atu/include/rse_atu.h:132-178 | a region holds the addresses whose page lies between its two page registers, with a 64-bit offset in pages and its own enable bit |
| `Atu.OutcomeMeaning` | systemc-components/rse_atu/include/rse_atu.h:314-384 | the deciding region adds its offset, and an offset that does not fit is reported before a refused domain |
| `Atu.FaultMeaning` | systemc-components/rse_atu/include/rse_atu.h:314-384 | without a serving region the fault is out of range if the access runs out of some region, else disabled if a disabled region holds it, else unmapped |
| `Atu.WrittenMeaning` | systemc-components/rse_atu/include/rse_atu.h:240-274 | register by register: three are read-only, one clears status bits, one array keeps 16 bits, and no other register changes |
| `Atu.SearchIff` | systemc-components/rse_atu/include/rse_atu.h:314-384 | a region that can serve an access decides it exactly when no lower enabled region covers the whole access |
| `Atu.Unit.TranslateRange` | systemc-components/rse_atu/include/rse_atu.h:314-384 | the search loop returns that decision, or the fault with its precedence, and latches the address only when asked |
| `Atu.Upstream` | systemc-components/rse_atu/include/rse_atu.h:717-785 | the offer is passed on exactly when it holds the whole translated request, and cut to exactly the addresses the region maps into it |
| `Atu.Unit.GetDirectMemPtr` | systemc-components/rse_atu/include/rse_atu.h:692-796 | every address of a granted window lies in the region, maps without overflow into the downstream window, and the moved pointer reaches its translation |
| `Atu.WindowAgrees` | systemc-components/rse_atu/include/rse_atu.h:314-384 | an access inside a window translates by the window's region exactly when no lower enabled region serves it, and then to where the pointer leads |
| `Atu.WindowReaches` | systemc-components/rse_atu/include/rse_atu.h:314-384 | an access inside a window is translated to where its pointer leads exactly when the lowest region that serves it is allowed and has the window's offset |
| `Atu.LowerRegionWins` | systemc-components/rse_atu/include/rse_atu.h:314-384 | with a lower region nested inside a window, translation and window disagree |
| `Atu.Unit.WriteRegister` | systemc-components/rse_atu/include/rse_atu.h:240-274 | after any write that changes a region or the enable bits no window is outstanding; other writes keep every window good |
| `EventRing.NextIsSuccessor` | systemc-components/mmu720ae/src/mmu720ae_core.cc:168-184 | index and flipping wrap bit count up modulo 2^(k+1) |
| `EventRing.FullIff` | systemc-components/mmu720ae/src/mmu720ae_core.cc:156-166 | the full test holds exactly when 2^k records are outstanding |
| `EventRing.FaultRecordFields` | systemc-components/mmu720ae/src/mmu720ae_core.cc:198-215 | event, stream, direction and address can be read back from their fields of the record |
| `EventRing.Queue.BaseFields` | systemc-components/mmu720ae/src/mmu720ae_core.cc:119-134 | size and 32-byte aligned address come from their fields of the base register, and records are 32 bytes apart |
| `EventRing.SlotsApart` | systemc-components/mmu720ae/src/mmu720ae_core.cc:186-191 | records in different slots do not overlap and stay inside the queue's space |
| `EventRing.FreshSlot` | systemc-components/mmu720ae/src/mmu720ae_core.cc:186-191 | while not full, the producer's slot is none of the outstanding records' slots |
| `EventRing.Queue.RecordFault` | systemc-components/mmu720ae/src/mmu720ae.cc:169-192 | a recorded fault joins the tail of the queue and disturbs no outstanding record; a full or disabled queue or a failed write raises the abort error and leaves the producer |
| `EventRing.Queue.ReadOldest` | systemc-components/mmu720ae/src/mmu720ae_core.cc:136-191 | the record at the consumer pointer is the oldest outstanding one |
| `EventRing.Queue.WriteCons` | systemc-components/mmu720ae/src/mmu720ae_core.cc:257-311 | the register takes any value; one that leaves no more records outstanding releases exactly the oldest ones, and no others |
| `EventRing.ReleaseIff` | systemc-components/mmu720ae/src/mmu720ae_core.cc:257-311 | a consumer value passes over outstanding records only exactly when it leaves no more of them outstanding |
| `EventRing.Queue.RecordAbort` | systemc-components/mmu720ae/src/mmu720ae_core.cc:238-255 | sets the abort bit, its complement register and the interrupt |
| `EventRing.Queue.LevelIs` | systemc-components/mmu720ae/src/mmu720ae_core.cc:246-255 | interrupt control bit 0 lets errors raise the line, and bit 2 lets waiting records raise it |
| `EventRing.Queue.Serve` | systemc-components/mmu720ae/src/mmu720ae.cc:169-192 | first in, first out, through memory: however faults and software interleave, what software reads followed by what is outstanding is what was outstanding followed by every fault that found room and was written |
| `Mailbox.PackedByte` | systemc-components/mhu320ae/include/mhu320ae.h:1874-1891 | shifting and masking a packed word gives each byte back |
| `Mailbox.RoundTrip` | systemc-components/mhu320ae/include/mhu320ae.h:1874-1891 | reading after loading gives the message cut to min(length modulo 2^32, 4*(channels-2)), and nothing with one channel |
| `Mailbox.RoundTripIff` | systemc-components/mhu320ae/include/mhu320ae.h:1874-1891 | the first 4*(channels-2) bytes come back unless the length wraps to less; the whole message comes back exactly when it fits |
| `Mailbox.CombinedBit` | systemc-components/mhu320ae/include/mhu320ae.h:314-328 | a bit of a combined word is set exactly when its channel is asserted |
| `Octets.ClearedBits` | systemc-components/mhu320ae/include/mhu320ae.h:229-232 | masking keeps exactly the bits outside the mask |
| `Mailbox.EndChannels` | systemc-components/mhu320ae/include/mhu320ae.h:2397-2415 | the first channel carries the length modulo 2^32, and the last one the notify value 1234 |
| `Mailbox.Frame.LoadMessage` | systemc-components/mhu320ae/include/mhu320ae.h:2397-2415 | channels hold length, packed words and the notify value, and the register image and combined words show the whole state afterwards |
| `Mailbox.Frame.ReadMessage` | systemc-components/mhu320ae/include/mhu320ae.h:1874-1891 | the nested loops read the message the status words spell |
| `Mailbox.Frame.CombineWord` | systemc-components/mhu320ae/include/mhu320ae.h:310-328 | the loop sets exactly the asserted channels' bits |
| `Mailbox.Frame.RefreshCombined` | systemc-components/mhu320ae/include/mhu320ae.h:330-336 | the image's combined words show the state and nothing else in the image changes |
| `Mailbox.Frame.Read32` | systemc-components/mhu320ae/include/mhu320ae.h:347-393 | a decoded register reads from the state, combined words are computed, and the rest comes from the image |
| `Mailbox.Frame.ReadableAt` | systemc-components/mhu320ae/include/mhu320ae.h:347-393 | by word number: each channel's status, mask, interrupt and control registers, eight words apart from 1024 on |
| `Mailbox.Frame.CombinedWordBits` | systemc-components/mhu320ae/include/mhu320ae.h:310-328 | bit i of combined word w at 256 + w is set exactly when channel 32 w + i exists and has a status bit set that is unmasked, or enabled |
| `Mailbox.Frame.ReadsAgree` | systemc-components/mhu320ae/include/mhu320ae.h:347-393 | in a frame whose image shows its state, as after a message was loaded, such a read and the image agree at every register |

## Left out

- Curve.LadderIsMultiple: states the scalar multiple over an abstract associative operation with a unit; that point addition is associative is not proved.
- Flash.Device.Run: the backing file is one fixed byte array whose writes succeed when in range; opening, mapping and switching files, a file that cannot be opened, and the branch for Windows are not modelled. That the file stays in step is stated for runs without a load; `Flash.Device.LoadImage` says when one load keeps it.
- Flash.Device.FindDmiRange: takes the parsed list of grantable ranges; parsing the parameter's text is not modelled. A malformed list grants nothing.
- Flash.Device.EraseSector: needs a positive sector size, as the division in the code does. Array sizes are below 2^63, the limit of the container that holds the array.
- Pka.Unit.Run: covers aligned 32-bit writes; narrower, wider or unaligned accesses bypass the register logic.
- Atu.Unit.WriteRegister: covers aligned 32-bit writes, for the same reason. The downstream grant is a parameter, so what the far side promises about it is not modelled.
- EventRing.Queue.Serve: the queue base and the enable bits are fixed, and only the device writes the producer register.
- EventRing.Queue.RecordFault: records lie in a map from addresses to whole records; a failed memory write may leave anything in the slot.
- DecryptAccel.PathsAgree: guest memory accesses inside the memory succeed, keys are already captured, and recorded payloads are disjoint; reading the call's arguments from guest registers and stack is not modelled.
- CtrDma.Engine.CtrXcrypt: a chunk fails when its range leaves the memory; other bus errors are not modelled.
- Dma350.Channel.Command: addresses do not wrap at 64 bits, and an access fails when it leaves the memory.
- HashEngine.Engine.Finish: the compression function is a parameter, so its 64 rounds are not modelled; the same parameter serves both implementations.
- LmsStandard.HonestAccepted: the hash is any function with 32-byte results; how the signer draws its secrets is a parameter.
- Mailbox.Frame.ReadsAgree: writes that bypass the register logic may leave an image that does not show the state; they are not modelled.
- AES-CMAC and ECB transfers of the crypto engine, its random number generator and its reset registers.
- Signature parsing (DER) and the ECDSA equation, which compose the operations proved here.
- Transaction transport, delays, events, module registration, tracing, statistics and profile files: they do not change the state modelled here.
- Register banks with one-branch write masks, constant discovery tables, and the polling threads of the message-handling unit.
- The processor wrappers and the memory copy and fill shortcuts, whose guest code is not part of this model.
