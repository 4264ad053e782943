# Thingino firmware: verified models of the crypto back end and of five smaller components

The first and largest part models the software side of the mbedTLS replacement for AES, GCM and CCM
(`package/thingino-mbedtls/alt`): table-driven field arithmetic, the in-place block cipher, key expansion, the modes
CBC, CFB128, OFB, CTR and XTS, and the one-shot GCM and CCM calls with their choice between the `/dev/aes` engine and
software. The code is kept in its imperative form (arrays and context objects changed in place, loops with carried
state) and every method is proved equal to the definition of the standard it implements; the laws that those
definitions are for are then proved about the definitions. The other parts are the TLS relay's ring buffers and event
loop, the wake-word start/stop protocol, the template renderer, the day/night daemon, and the Improv frame builder and
parser.

| files | what they hold |
|---|---|
| `Bytes`, `Gf8`, `SBoxes`, `Aes`, `AesBlock`, `AesKey`, `AesContext` | bytes and blocks; GF(2^8); the S-boxes; FIPS 197 (sections 4.2, 5.1 to 5.3); the in-place rounds; key expansion; the AES context |
| `BlockModes`, `Engine`, `CbcCode` | ECB and CBC (SP 800-38A, sections 6.1 and 6.2); the engine's contract; the CBC call |
| `StreamModes`, `StreamCode` | OFB, CFB128 and CTR as byte-wise state machines and as the block modes of SP 800-38A; their loops |
| `Xts`, `XtsBlocks`, `XtsCode` | IEEE 1619 with ciphertext stealing; the tweak update and the XTS call |
| `Gf128`, `GhashTables`, `Ghash`, `GhashSum`, `Gcm`, `EcbBulk`, `GcmCode` | GF(2^128) bit by bit and by nibble tables; GHASH; SP 800-38D (sections 6.2 to 6.5, 7.1, 7.2); the GCM context |
| `CcmFormat`, `Ccm`, `CcmCode` | RFC 3610 (sections 2.2 to 2.6); the CCM context |
| `Ring`, `Relay` | the ring buffer; one relayed connection over any number of passes of the event loop |
| `WakeWord`, `Template` with `Conditions` and `Placeholders`, `DayNight`, `Improv` | one component each |
| `Options` | the option type |

What the engine answers during a call is an input of that call: it cannot be opened, or it serves a request under the
same AES, or it stops early, perhaps after writing some bytes. Every statement holds for all answers, and each call says
exactly for which of them it succeeds. Sockets, the TLS library, the clock, scripts and scheduling are nondeterministic.

Where the code and its comments differ, the code is modelled:

- `mbedtls_aes_crypt_ctr` carries through all sixteen bytes of the counter block; its comment speaks of the last four.
- `mbedtls_gcm_auth_decrypt` accepts an empty IV, which `mbedtls_gcm_crypt_and_tag` refuses.
- `mbedtls_aes_crypt_cbc` falls back to software when the engine stops early. In place, the software then reads what
  the engine wrote: `CbcCode.FallbackIsExact` says exactly when the result is still right.
- `mbedtls_ccm_auth_decrypt` decrypts before it authenticates. Exactly when the engine serves the counters of a long
  record and stops on its MAC, the call fails with the decrypted text left in the output; a wrong tag leaves zeros.
- XTS with a partial last block, run in place in either direction, overwrites the last bytes before reading them.
  `Xts.InPlaceRoundTrip` and `Xts.InPlaceDecryptRoundTrip` say that the round trip then holds exactly for whole numbers
  of blocks, and the two lemmas on forgotten tails why.
- The length guard of CCM alone does not make the staged MAC input fit its buffer. The calls require that it fits;
  `CcmCode.StagingFitsExactly` says when, `CcmCode.AcceptedMayNotFit` that accepted texts can miss it, and
  `CcmCode.TlsRecordsFit` that TLS records do not.
- An Improv frame built without a checksum still carries its last byte, and the parser then always refuses it. The
  parser's checksum loop counts in one byte and never ends for checked data of 257 or 258 bytes, which the builder
  itself makes for a body of 254 or 255 bytes; and a missing string length is read from beyond the data
  (`Improv.EndlessExactly`, `Improv.ReadsPastExactly`, `Improv.WifiRoundTrip`).
- Pass-through in the second copy of the relay writes past a non-empty queue; `Relay.PassThroughKeepsOrder` says that
  the order of bytes is kept exactly when the queue is empty or so full that nothing is read.
- Placeholders in a template are filled in one variable after another, so text between two of them can be taken for a
  third (`Placeholders.TextTakenForPlaceholder`). `Placeholders.PlaceholdersFilled` gives a condition that prevents it
  for any number of placeholders, and `Placeholders.TwoPlaceholdersExactly` the exact one for two.
- When the relay's ring fills while the TLS library holds decrypted bytes, emptying the ring does not bring the loop
  back to them: it waits for the socket, which has nothing to tell (`Relay.Connection.DrainingPass`,
  `Relay.StrandedWaitsForNewInput`).
- `wake_word_resume` does not start audio input, so a stop followed by a resume detects without audio
  (`WakeWord.SilentExactly`).
- The day/night daemon clears a forced request before it knows whether the change goes through, so a request refused by
  the delay or the script is lost (`DayNight.SignalIsObeyedOrLost`).

## Model

| member | source | states |
|---|---|---|
| Bytes.XorAt | package/thingino-mbedtls/alt/gcm_alt.c:434-435 | XOR of two strings is XOR byte by byte |
| Bytes.BigEndianAt | package/thingino-mbedtls/alt/ccm_alt.c:377-378 | each stored byte of a number counts a power of 256, the first the highest |
| Bytes.PaddedAt | package/thingino-mbedtls/alt/ccm_alt.c:398-409 | padding is fewer than sixteen zeros behind the string |
| Gf8.GMul | package/thingino-mbedtls/alt/aes_alt.c:126-137 | the shift-and-add loop computes the product of the two bytes in GF(2^8) |
| Gf8.MulByConstants | package/thingino-mbedtls/alt/aes_alt.c:121-137 | products by 2, 3, 9, 11, 13 and 14 are the sums of doublings that MixColumns and its inverse need |
| Gf8.MulDistributes | package/thingino-mbedtls/alt/aes_alt.c:126-137 | multiplication by a constant distributes over XOR |
| Gf8.FactorsSwap | package/thingino-mbedtls/alt/aes_alt.c:126-137 | multiplications by two bytes can be made in either order |
| Gf8.InverseIsUnique | package/thingino-mbedtls/alt/aes_alt.c:126-137 | a byte has at most one multiplicative inverse |
| SBoxes.SBoxesInvert | package/thingino-mbedtls/alt/aes_alt.c:51-87 | `rsbox` and `sbox` undo each other on all 256 bytes, in both orders |
| SBoxes.SBoxIsAffineOfInverse | package/thingino-mbedtls/alt/aes_alt.c:51-68 | every entry of `sbox` is the affine map of the multiplicative inverse, section 5.1.1 of FIPS 197 |
| SBoxes.InverseExists | package/thingino-mbedtls/alt/aes_alt.c:51-68 | every byte but zero has such an inverse |
| Aes.ShiftRowsInverts | package/thingino-mbedtls/alt/aes_alt.c:188-244 | the row permutations of encryption and decryption cancel, in both orders |
| Aes.MixColumnsInverts | package/thingino-mbedtls/alt/aes_alt.c:194-270 | the 14-11-13-9 columns undo the 2-3-1-1 columns and conversely |
| Aes.DecryptUndoesEncrypt | package/thingino-mbedtls/alt/aes_alt.c:164-273 | for any round keys and any round count from 1 up, decryption returns the plaintext |
| Aes.EncryptUndoesDecrypt | package/thingino-mbedtls/alt/aes_alt.c:164-273 | the same in the other order |
| AesBlock.SubAndShift | package/thingino-mbedtls/alt/aes_alt.c:184-192 | substitution and shifting in place equal SubBytes followed by ShiftRows |
| AesBlock.MixColumn | package/thingino-mbedtls/alt/aes_alt.c:194-204 | one column mixed in place through `xtime` is the MixColumns column, and no other byte changes |
| AesBlock.UnmixColumn | package/thingino-mbedtls/alt/aes_alt.c:259-269 | one column through `gmul` is the InvMixColumns column, and no other byte changes |
| AesBlock.SwEncryptBlock | package/thingino-mbedtls/alt/aes_alt.c:164-217 | the in-place rounds compute the cipher of section 5.1 of FIPS 197 |
| AesBlock.SwDecryptBlock | package/thingino-mbedtls/alt/aes_alt.c:220-273 | the in-place rounds compute the inverse cipher of section 5.3 of FIPS 197 |
| Aes.EncryptionByBytes | package/thingino-mbedtls/alt/aes_alt.c:164-217 | a state for every round: each byte is twice and three times one S-box entry, and two more entries, of the state before, plus its key byte; the last round mixes nothing |
| AesKey.TableOfConstants | package/thingino-mbedtls/alt/aes_alt.c:89-91 | the constants in the table are the powers of x in GF(2^8) |
| AesKey.SwKeyExpand | package/thingino-mbedtls/alt/aes_alt.c:143-161 | the loop fills the schedule with the key expansion of section 5.2 of FIPS 197, for 4, 6 and 8 words, and stays in the 68-word array |
| AesKey.ScheduleBytes | package/thingino-mbedtls/alt/aes_alt.c:115-161 | every byte of the schedule after the key is the byte one key length back plus the S-box of the next byte of the previous word and the round constant, the S-box of the same byte, or that byte itself, as section 5.2 of FIPS 197 has it |
| AesKey.FirstRoundKeys | package/thingino-mbedtls/alt/aes_alt.c:93-97 | the first round keys are the key, byte for byte |
| AesKey.SampleSchedule | package/thingino-mbedtls/alt/aes_alt.c:143-161 | the fourth word for the key of appendix A.1 of FIPS 197 |
| AesContext.Context.SetKey | package/thingino-mbedtls/alt/aes_alt.c:416-447 | exactly 128, 192 and 256 bits are accepted; the schedule and the engine's key words then belong to the given key |
| AesContext.Context.CryptEcb | package/thingino-mbedtls/alt/aes_alt.c:449-476 | one block under the context's key, in either direction |
| AesContext.CipherInverts | package/thingino-mbedtls/alt/aes_alt.c:143-273 | for every key, AES and its inverse undo each other on every block |
| AesContext.CipherByBytes | package/thingino-mbedtls/alt/aes_alt.c:416-476 | the same for a key, with ten, twelve or fourteen rounds |
| BlockModes.CbcInverts | package/thingino-mbedtls/alt/aes_alt.c:479-532 | CBC decryption undoes CBC encryption for any number of blocks and any invertible block function |
| BlockModes.CbcRestores | package/thingino-mbedtls/alt/aes_alt.c:479-532 | CBC encryption undoes CBC decryption |
| BlockModes.EcbAt | package/thingino-mbedtls/alt/gcm_alt.c:350-362 | each block is enciphered on its own |
| BlockModes.CbcEncryptAt | package/thingino-mbedtls/alt/aes_alt.c:506-516 | each ciphertext block is the enciphered sum of its plaintext block and the ciphertext block before it |
| BlockModes.CbcDecryptAt | package/thingino-mbedtls/alt/aes_alt.c:517-529 | each plaintext block is the sum of its deciphered ciphertext block and the ciphertext block before it |
| BlockModes.CbcEncryptSplits | package/thingino-mbedtls/alt/aes_alt.c:479-532 | encrypting in two pieces with the carried IV is encrypting at once |
| BlockModes.CbcDecryptSplits | package/thingino-mbedtls/alt/aes_alt.c:479-532 | decrypting in two pieces with the carried IV is decrypting at once |
| Engine.RequestCbc | package/thingino-mbedtls/alt/aes_alt.c:352-398 | the device contract: a served request is CBC under the same key; one that stops early leaves whatever bytes it wrote |
| Engine.RequestEcb | package/thingino-mbedtls/alt/gcm_alt.c:144-168 | the same for blocks one by one |
| CbcCode.HwCbc | package/thingino-mbedtls/alt/aes_alt.c:352-398 | exactly an engine that is there and serves succeeds, and the IV is reloaded from the buffers as they then are; otherwise the IV is kept and the output holds what was written |
| CbcCode.SwCbcEncrypt | package/thingino-mbedtls/alt/aes_alt.c:507-516 | the software loop leaves CBC ciphertext and its last block as the IV, in place or not |
| CbcCode.SwCbcDecrypt | package/thingino-mbedtls/alt/aes_alt.c:517-529 | the software loop leaves the plaintext and the last ciphertext block as the IV, also in place |
| CbcCode.CryptCbc | package/thingino-mbedtls/alt/aes_alt.c:479-532 | output and IV are those of CBC over what the call finds in its input, whether the engine served, stopped or was never asked; a ragged length is refused and changes nothing |
| CbcCode.CbcIsInjective | package/thingino-mbedtls/alt/aes_alt.c:479-532 | different texts never give the same CBC result, in either direction |
| CbcCode.FallbackIsExact | package/thingino-mbedtls/alt/aes_alt.c:486-528 | the result after a fall-back is right exactly if the call was not in place, or the engine was not asked or served, or it wrote nothing but what was there |
| CbcCode.FallbackCanFail | package/thingino-mbedtls/alt/aes_alt.c:486-528 | a call in place that falls back and gives the wrong result |
| CbcCode.AesCbcInverts | package/thingino-mbedtls/alt/aes_alt.c:479-532 | what AES-CBC encrypts it decrypts, for every key, IV and number of blocks |
| CbcCode.CallsCompose | package/thingino-mbedtls/alt/aes_alt.c:479-532 | two calls that carry the IV give the output and final IV of one, in either direction |
| StreamModes.RunSplits | package/thingino-mbedtls/alt/aes_alt.c:536-630 | any cut of the input into two calls with carried state gives the output and state of one call |
| StreamModes.IncrementAddsOne | package/thingino-mbedtls/alt/aes_alt.c:619-623 | the byte carry adds one to the counter block read as a number, modulo its size |
| StreamModes.CfbInverts | package/thingino-mbedtls/alt/aes_alt.c:536-563 | CFB128 decryption undoes encryption from any offset and ends in the same state |
| StreamModes.OfbInverts | package/thingino-mbedtls/alt/aes_alt.c:588-603 | OFB is its own inverse from any offset |
| StreamModes.CtrInverts | package/thingino-mbedtls/alt/aes_alt.c:607-630 | CTR is its own inverse from any offset |
| StreamModes.OfbIsBlockwise | package/thingino-mbedtls/alt/aes_alt.c:588-603 | the byte-wise loop is OFB of section 6.4 of SP 800-38A, for every length |
| StreamModes.CfbIsBlockwise | package/thingino-mbedtls/alt/aes_alt.c:536-563 | the byte-wise loop is CFB with whole-block segments of section 6.3 of SP 800-38A |
| StreamModes.CtrIsBlockwise | package/thingino-mbedtls/alt/aes_alt.c:607-630 | the byte-wise loop is CTR of section 6.5 of SP 800-38A |
| StreamModes.OfbAt | package/thingino-mbedtls/alt/aes_alt.c:588-603 | each byte is XORed with a byte of the IV enciphered once more for every block |
| StreamModes.CfbAt | package/thingino-mbedtls/alt/aes_alt.c:536-563 | each byte is XORed with a byte of the enciphered ciphertext block before its own |
| StreamModes.CtrAt | package/thingino-mbedtls/alt/aes_alt.c:607-630 | each byte is XORed with a byte of the enciphered counter of its block |
| StreamModes.CountUpAdds | package/thingino-mbedtls/alt/aes_alt.c:619-623 | the counter of a block is the nonce plus the number of the block, modulo 2^128 |
| StreamCode.IncrementInPlace | package/thingino-mbedtls/alt/aes_alt.c:619-623 | the carry loop with its early exit increments the whole counter block |
| StreamCode.CryptOfb | package/thingino-mbedtls/alt/aes_alt.c:588-603 | the loop leaves the output, offset and register of the OFB machine, in place or not |
| StreamCode.CryptCfb128 | package/thingino-mbedtls/alt/aes_alt.c:536-563 | the same for both directions of CFB128 |
| StreamCode.CryptCtr | package/thingino-mbedtls/alt/aes_alt.c:607-630 | the same for CTR with its counter and stream block |
| Xts.XtsInverts | package/thingino-mbedtls/alt/aes_alt.c:693-767 | decryption undoes encryption for every length from one block up, stolen last blocks with swapped tweaks included |
| Xts.XtsRestores | package/thingino-mbedtls/alt/aes_alt.c:693-767 | encryption undoes decryption for every such length |
| Xts.InPlaceWholeBlocks | package/thingino-mbedtls/alt/aes_alt.c:712-722 | with one shared buffer and whole blocks the result is the standard's |
| Xts.InPlaceForgetsTail | package/thingino-mbedtls/alt/aes_alt.c:724-764 | with one shared buffer, the bytes after the last whole block do not reach the encrypted output |
| Xts.InPlaceRoundTrip | package/thingino-mbedtls/alt/aes_alt.c:693-767 | encryption in place can be undone for all inputs of a length exactly if the length is a multiple of 16 |
| Xts.InPlaceDecryptForgetsTail | package/thingino-mbedtls/alt/aes_alt.c:724-764 | the same loss for in-place decryption |
| Xts.InPlaceDecryptRoundTrip | package/thingino-mbedtls/alt/aes_alt.c:693-767 | decryption in place recovers all texts of a length exactly if the length is a multiple of 16 |
| Xts.DoubleIsTimesX | package/thingino-mbedtls/alt/aes_alt.c:680-691 | doubling is multiplication by x of the 128-bit little-endian number, reduced by 0x87 |
| Xts.TweakIsPower | package/thingino-mbedtls/alt/aes_alt.c:680-722 | the tweak of block i is the encrypted data unit times x^i |
| Xts.BlockUnderTweak | package/thingino-mbedtls/alt/aes_alt.c:712-722 | every block outside ciphertext stealing is enciphered under its own tweak |
| XtsBlocks.EncryptedBlock | package/thingino-mbedtls/alt/aes_alt.c:712-722 | block by block: output plus tweak is the enciphered sum of input and tweak, the tweak being the start times x^i |
| XtsBlocks.DecryptedBlock | package/thingino-mbedtls/alt/aes_alt.c:712-722 | the same for decryption |
| XtsBlocks.EncryptedTail | package/thingino-mbedtls/alt/aes_alt.c:746-763 | the same equations for the two stolen pieces, and where each of their bytes goes |
| XtsBlocks.DecryptedTail | package/thingino-mbedtls/alt/aes_alt.c:729-745 | the same for decryption, with the two tweaks in the opposite order |
| XtsBlocks.TopBitFolds | package/thingino-mbedtls/alt/aes_alt.c:680-691 | the bit that falls off the top of the tweak comes back as 0x87 |
| XtsCode.MulTweak | package/thingino-mbedtls/alt/aes_alt.c:680-691 | the byte-carry loop doubles the tweak in place |
| XtsCode.Steal | package/thingino-mbedtls/alt/aes_alt.c:724-764 | the tail leaves the stolen last blocks, for separate buffers and for one shared buffer, and touches nothing else |
| XtsCode.CryptWhole | package/thingino-mbedtls/alt/aes_alt.c:712-722 | after the main loop, output and updated tweak complete to the result of the whole call |
| XtsCode.CryptXts | package/thingino-mbedtls/alt/aes_alt.c:693-767 | less than a block is refused; otherwise the output is XTS under the encrypted data unit, or the in-place variant |
| XtsCode.AesXtsInverts | package/thingino-mbedtls/alt/aes_alt.c:693-767 | AES-XTS between separate buffers round-trips for every length from 16 up |
| Gf128.HornerNibble | package/thingino-mbedtls/alt/gcm_alt.c:241-279 | four steps of the bit-serial product are one step by x^4 and one table entry |
| Gf128.TimesXDistributes | package/thingino-mbedtls/alt/gcm_alt.c:209-239 | multiplication by x in the reflected field distributes over XOR |
| GhashTables.TimesX4Folds | package/thingino-mbedtls/alt/gcm_alt.c:184-187 | four single shifts with reduction equal one shift by four with the fallen bits folded in through the table |
| GhashTables.TimesX4OnHalves | package/thingino-mbedtls/alt/gcm_alt.c:260-273 | the same on the two 64-bit words the code keeps |
| GhashTables.PackUnpack | package/thingino-mbedtls/alt/gcm_alt.c:189-207 | loading what was stored as 64-bit big-endian words gives the words back |
| GhashTables.UnpackPack | package/thingino-mbedtls/alt/gcm_alt.c:189-207 | storing what was loaded gives the bytes back |
| GhashTables.GenTable | package/thingino-mbedtls/alt/gcm_alt.c:215-239 | the tables hold, for every nibble, its multiple of the subkey |
| GhashTables.Mult | package/thingino-mbedtls/alt/gcm_alt.c:246-279 | for every subkey and every block the table-driven multiply is the bit-serial product of section 6.3 of SP 800-38D |
| Ghash.HashAppends | package/thingino-mbedtls/alt/gcm_alt.c:286-305 | GHASH of a concatenation at a block boundary is GHASH continued |
| Ghash.ProductDistributes | package/thingino-mbedtls/alt/gcm_alt.c:246-279 | the product distributes over XOR of the block |
| Ghash.HashDistributes | package/thingino-mbedtls/alt/gcm_alt.c:286-305 | GHASH is XOR-linear over messages of equally many blocks |
| Ghash.PaddedHashDistributes | package/thingino-mbedtls/alt/gcm_alt.c:286-305 | and over equally long messages of any length, padding included |
| Ghash.Update | package/thingino-mbedtls/alt/gcm_alt.c:286-305 | one update with a ragged end is GHASH over the zero-padded data |
| GhashSum.TimesOne | package/thingino-mbedtls/alt/gcm_alt.c:246-279 | the block with bit 0 alone is neutral for the product |
| GhashSum.ProductCommutes | package/thingino-mbedtls/alt/gcm_alt.c:246-279 | the product is commutative |
| GhashSum.ProductAssociates | package/thingino-mbedtls/alt/gcm_alt.c:246-279 | the product is associative |
| GhashSum.HashOfBlock | package/thingino-mbedtls/alt/gcm_alt.c:286-305 | one block is added and multiplied by the subkey |
| GhashSum.HashIsSum | package/thingino-mbedtls/alt/gcm_alt.c:286-305 | GHASH of n blocks is the sum of X_i times H^(n-i+1), section 6.4 of SP 800-38D |
| GhashSum.PackBytes | package/thingino-mbedtls/alt/gcm_alt.c:189-195 | the field element of a block has its first byte on top |
| Gcm.KeystreamIsGctr | package/thingino-mbedtls/alt/gcm_alt.c:328-438 | XOR with enciphered counter blocks is GCTR of section 6.5 of SP 800-38D |
| Gcm.GctrInverts | package/thingino-mbedtls/alt/gcm_alt.c:393-438 | GCTR is its own inverse |
| Gcm.CounterBlockAt | package/thingino-mbedtls/alt/gcm_alt.c:328-346 | counter block i keeps twelve bytes of J_0 and counts modulo 2^32 |
| Gcm.CountersDistinct | package/thingino-mbedtls/alt/gcm_alt.c:328-346 | J_0 and all counter blocks of one call are pairwise distinct, wrap-around included |
| Gcm.CryptAt | package/thingino-mbedtls/alt/gcm_alt.c:393-438 | each byte of the text is XORed with a byte of the enciphered counter block, the first of which follows J_0 |
| Gcm.CounterBytes | package/thingino-mbedtls/alt/gcm_alt.c:328-346 | a counter block keeps twelve bytes and ends in the number, most significant byte first |
| Gcm.LengthsAreBits | package/thingino-mbedtls/alt/gcm_alt.c:308-318 | both lengths are counted in bits |
| Gcm.ShortPreCounter | package/thingino-mbedtls/alt/gcm_alt.c:372-389 | a 12-byte IV is followed by 0, 0, 0, 1 |
| Gcm.LongPreCounter | package/thingino-mbedtls/alt/gcm_alt.c:372-389 | any other IV is hashed with its padding, eight zero bytes and its length in bits |
| Gcm.TagIsSum | package/thingino-mbedtls/alt/gcm_alt.c:444-471 | the tag is the polynomial over padded data, padded text and lengths, at the point E(0), plus the enciphered J_0 |
| EcbBulk.SwEcbBulk | package/thingino-mbedtls/alt/gcm_alt.c:350-362 | the software loop enciphers each block on its own |
| EcbBulk.EncipherBlocks | package/thingino-mbedtls/alt/ccm_alt.c:216-285 | engine or software, the key stream is the same; it fails exactly if the engine is asked and stops |
| GcmCode.BuildCtrBlocks | package/thingino-mbedtls/alt/gcm_alt.c:328-346 | the buffer holds the blocks after J_0 in order |
| GcmCode.GcmContext.SetKey | package/thingino-mbedtls/alt/gcm_alt.c:490-530 | after a good key size the schedule, the engine key, the subkey and both tables belong to the key; a bad size changes none of them |
| GcmCode.GcmContext.DeriveJ0 | package/thingino-mbedtls/alt/gcm_alt.c:372-389 | J_0 of section 7.1 of SP 800-38D for 12-byte and all other IVs |
| GcmCode.HashOfParts | package/thingino-mbedtls/alt/gcm_alt.c:444-471 | successive updates equal one GHASH over both padded strings and the lengths |
| GcmCode.GcmContext.ComputeTag | package/thingino-mbedtls/alt/gcm_alt.c:444-471 | the tag of section 7.1 of SP 800-38D |
| GcmCode.GcmContext.CryptInternal | package/thingino-mbedtls/alt/gcm_alt.c:393-438 | on either side of the 512-byte threshold the output is GCTR; it fails, and then changes no output, exactly for a text beyond the scratch size or a long text on which the engine stops |
| GcmCode.GcmContext.CryptAndTag | package/thingino-mbedtls/alt/gcm_alt.c:532-574 | text and truncated tag for both directions, in place or not; exactly when the call is refused |
| GcmCode.GcmContext.AuthDecrypt | package/thingino-mbedtls/alt/gcm_alt.c:576-610 | the status in every case: AUTH_FAILED exactly when the first tag bytes differ from the recomputed tag, and then only zeros; otherwise the plaintext unless the engine stops |
| GcmCode.CryptInverts | package/thingino-mbedtls/alt/gcm_alt.c:393-438 | the text function of GCM undoes itself |
| GcmCode.SealThenOpen | package/thingino-mbedtls/alt/gcm_alt.c:532-610 | what one context seals another under the same key opens, the record in the input or apart, the text opened into the record, the input or a third buffer; each step succeeds exactly if its arguments are accepted and it takes the software path or its engine serves |
| CcmFormat.FlagsDecode | package/thingino-mbedtls/alt/ccm_alt.c:367-372 | the flags byte determines nonce length, tag length and the presence of associated data |
| CcmFormat.FirstBlockDecodes | package/thingino-mbedtls/alt/ccm_alt.c:363-380 | B_0 determines the nonce and the text length |
| CcmFormat.AdDecodes | package/thingino-mbedtls/alt/ccm_alt.c:382-402 | the encoded associated data can be told from what follows |
| CcmFormat.MacInputPrefixFree | package/thingino-mbedtls/alt/ccm_alt.c:357-412 | if one accepted MAC input is a prefix of another, nonce, associated data, text and tag length are equal |
| Ccm.CryptInverts | package/thingino-mbedtls/alt/ccm_alt.c:422-440 | the text function of CCM undoes itself |
| Ccm.CbcMacIsLastBlock | package/thingino-mbedtls/alt/ccm_alt.c:176-267 | the engine's CBC run and the software chain yield the same MAC |
| Ccm.CountersDistinct | package/thingino-mbedtls/alt/ccm_alt.c:422-452 | counter blocks 0 to n of one message are pairwise distinct |
| Ccm.FirstBlockIsNoCounter | package/thingino-mbedtls/alt/ccm_alt.c:364-452 | B_0 differs from every counter block under every nonce |
| Ccm.CryptAt | package/thingino-mbedtls/alt/ccm_alt.c:422-440 | each byte of the text is XORed with a byte of the enciphered counter block of its number, from 1 on |
| Ccm.CounterBlockBytes | package/thingino-mbedtls/alt/ccm_alt.c:422-452 | the sixteen bytes of a counter block |
| Ccm.FlagsAre | package/thingino-mbedtls/alt/ccm_alt.c:367-372 | the first byte of B_0 as a number |
| Ccm.FirstBlockBytes | package/thingino-mbedtls/alt/ccm_alt.c:373-380 | the other bytes of B_0: the nonce and the text length |
| Ccm.MacInputIs | package/thingino-mbedtls/alt/ccm_alt.c:357-412 | what is authenticated: B_0, the associated data behind their length, and the text, both padded with zeros |
| Ccm.TagIsMaskedMac | package/thingino-mbedtls/alt/ccm_alt.c:525-531 | the tag, unmasked by the enciphered counter block 0, is the last block of the CBC encryption of that input, cut to the tag length |
| CcmCode.TlsRecordsFit | package/thingino-mbedtls/alt/ccm_alt.c:479-491 | records up to the largest TLS record fit with up to 14 bytes of associated data, and the largest with no more |
| CcmCode.StagingFitsExactly | package/thingino-mbedtls/alt/ccm_alt.c:479-491 | the staging buffer suffices exactly for 1026 blocks of associated data and text |
| CcmCode.AcceptedMayNotFit | package/thingino-mbedtls/alt/ccm_alt.c:479-491 | an accepted text beyond 16400 bytes does not fit |
| CcmCode.RefusesExactly | package/thingino-mbedtls/alt/ccm_alt.c:553-557 | which nonce, data, text and tag lengths are accepted, in numbers |
| CcmCode.BuildMacInput | package/thingino-mbedtls/alt/ccm_alt.c:357-412 | the buffer holds B_0, the padded associated data and the padded text, and the returned length is theirs |
| CcmCode.BuildCtrBlocks | package/thingino-mbedtls/alt/ccm_alt.c:422-440 | the buffer holds counter blocks 1 to n |
| CcmCode.CcmContext.SetKey | package/thingino-mbedtls/alt/ccm_alt.c:305-343 | which key sizes are accepted, and that the schedule and the engine key then agree |
| CcmCode.CcmContext.SwCbcMac | package/thingino-mbedtls/alt/ccm_alt.c:251-267 | the software chain is the CBC-MAC |
| CcmCode.CcmContext.HwCbcMac | package/thingino-mbedtls/alt/ccm_alt.c:176-209 | exactly a served run succeeds, and yields the same CBC-MAC |
| CcmCode.CcmContext.CryptText | package/thingino-mbedtls/alt/ccm_alt.c:422-440 | the text under the counter stream, in place or not; it fails, leaving the output, exactly if the engine is asked and stops |
| CcmCode.CcmContext.EncryptAndTag | package/thingino-mbedtls/alt/ccm_alt.c:459-539 | the status in every case; ciphertext and tag of RFC 3610; a failure changes neither output nor tag |
| CcmCode.CcmContext.AuthDecrypt | package/thingino-mbedtls/alt/ccm_alt.c:541-622 | the status in every case; success exactly when the tag is that of the decrypted text; the output holds plaintext, zeros, the old bytes if the counters failed, or the plaintext if only the MAC failed |
| CcmCode.SealThenOpen | package/thingino-mbedtls/alt/ccm_alt.c:459-622 | what one context seals another under the same key opens, the record in the input or apart, the text opened into the record, the input or a third buffer; each step succeeds exactly if it takes the software path or its engine serves both requests |
| Ring.WriteAppends | package/thingino-agent/files/thingino-agent-tls-event.c:69-88 | writing at the head of the circular array appends to the queue it stands for |
| Ring.ConsumeDrops | package/thingino-agent/files/thingino-agent-tls-event.c:106-113 | moving the tail drops from the front and keeps head, tail and length consistent |
| Ring.Buffer.Write | package/thingino-agent/files/thingino-agent-tls-event.c:69-88 | as much as fits is appended, across the wrap, and the count is returned |
| Ring.Buffer.Peek | package/thingino-agent/files/thingino-agent-tls-event.c:90-104 | the piece handed out is the front of the queue, and empty only for an empty queue |
| Ring.Buffer.Consume | package/thingino-agent/files/thingino-agent-tls-event.c:106-113 | the front of the queue is removed, at most all of it |
| Relay.Drain | package/thingino-agent/files/thingino-agent-tls-event.c:348-388 | draining keeps source bytes = sink bytes followed by the queue, ends with the queue empty or the sink stalled by this very call, and asks for shutdown exactly if the sink ended |
| Relay.Refill | package/thingino-agent/files/thingino-agent-tls-event.c:389-446 | filling keeps the same, never drops a byte, asks for as much as fits up to TMP_READ, ends with the ring full, the source stalled by this very call, or nothing more at hand, and leaves decrypted bytes behind exactly if the library decrypted more than the ring had room for |
| Relay.Connection.Forward | package/thingino-agent/files/thingino-agent-tls-event.c:347-448 | a ready sink gets everything read before the pass unless it stalls during it, a ready source is read unless it stalls during the pass or the ring is full, and shutdown is asked for exactly if a peer ended or failed |
| Relay.Connection.Serve | package/thingino-agent/files/thingino-agent-tls-event.c:313-452 | one pass keeps both directions in order, moves nothing before both sides are ready and nothing whose socket is not, takes the pending connection or handshake step, makes the progress of the forwarding phase, closes an open connection exactly if a peer ended or failed, and leaves decrypted bytes stranded exactly if some were held, TLS was not readable and the ring has room |
| Relay.Connection.PassWithAllReady | package/thingino-agent/files/thingino-agent-tls-event.c:237-448 | a pass over all that the loop watches delivers whatever was read before, in both directions, unless a sink stalls or a peer ends |
| Relay.Connection.DrainingPass | package/thingino-agent/files/thingino-agent-tls-event.c:348-367 | a pass that only empties the ring strands whatever the TLS library still holds |
| Relay.Connection.Run | package/thingino-agent/files/thingino-agent-tls-event.c:198-471 | over any number of passes and any readiness, in each direction the bytes handed on followed by the ring are exactly the bytes read |
| Relay.PrefixAndBacklog | package/thingino-agent/files/thingino-agent-tls-event.c:347-448 | each side has received a prefix of what the other sent, at most one ring behind |
| Relay.NeverDeaf | package/thingino-agent/files/thingino-agent-tls-event.c:216-250 | a live connection always waits for some event; once open, each sink is watched exactly while bytes wait for it and each source exactly while there is room |
| Relay.StrandedWaitsForNewInput | package/thingino-agent/files/thingino-agent-tls-event.c:237-249 | for bytes stranded behind empty rings the loop waits for new input only |
| Relay.PassThrough | package/thingino-httpd-ssl/src/event_server.c:435-454 | what the sink took and what was queued are the bytes read, unless the write failed |
| Relay.PassThroughKeepsOrder | package/thingino-httpd-ssl/src/event_server.c:435-454 | pass-through keeps the order for everything that can be read exactly if the queue is empty or full |
| WakeWord.StepKeepsInv | package/thingino-esphome/plugins/thingino_media_player/wake_word.cpp:883-1076 | every step of every caller and thread keeps: one operation at a time, one unjoined thread, warm-up accounting |
| WakeWord.AtMostOneThread | package/thingino-esphome/plugins/thingino_media_player/wake_word.cpp:883-1076 | over all interleavings at most one detection thread lives, none when stopped, detection is active exactly while starting or detecting, and joins are of unjoined threads |
| WakeWord.NoThreadIsLost | package/thingino-esphome/plugins/thingino_media_player/wake_word.cpp:962-1010 | whenever the state is stopped, every thread ever created has been joined |
| WakeWord.ReportsOnlyAfterWarmup | package/thingino-esphome/plugins/thingino_media_player/wake_word.cpp:676-763 | a report comes only after ten scores of the same session were discarded |
| WakeWord.ScoreIsReported | package/thingino-esphome/plugins/thingino_media_player/wake_word.cpp:653-763 | a round that ends in a score is reported once the warm-up is over |
| WakeWord.ScoreIsDiscarded | package/thingino-esphome/plugins/thingino_media_player/wake_word.cpp:683-696 | a score during the warm-up is discarded and counted |
| WakeWord.StartDetects | package/thingino-esphome/plugins/thingino_media_player/wake_word.cpp:883-960 | starting a stopped system with calls that work ends in detection, with audio, a fresh thread and ten warm-up rounds |
| WakeWord.JoinEnds | package/thingino-esphome/plugins/thingino_media_player/wake_word.cpp:653-670 | while a caller joins, each step of the thread brings its exit nearer, and after it the join goes through |
| WakeWord.NeverWedged | package/thingino-esphome/plugins/thingino_media_player/wake_word.cpp:883-1076 | between resting states some caller can always go on or waits for a live thread |
| WakeWord.SilentExactly | package/thingino-esphome/plugins/thingino_media_player/wake_word.cpp:883-1076 | between operations audio input runs exactly if some start succeeded and neither a stop nor a failed start followed; so detection without audio has exactly the other pasts |
| WakeWord.ResumeKeepsSilence | package/thingino-esphome/plugins/thingino_media_player/wake_word.cpp:1012-1076 | resuming a stopped system reaches detection with audio input as it was |
| Template.LastItemWins | scripts/render_template.py:41-51 | a variable has a value exactly if the last item naming it gives that value |
| Template.ParseVars | scripts/render_template.py:41-51 | all items good gives the dictionary in insertion order; otherwise the first bad item is reported |
| Template.ScanRefusesFaults | scripts/render_template.py:64-103 | which error is raised depends on the nesting of directives alone |
| Template.ScanForest | scripts/render_template.py:64-100 | over a nested template the stack machine adds its meaning, or nothing where inactive, and restores stack and activity |
| Template.AcceptsTemplates | scripts/render_template.py:58-105 | the machine accepts exactly the lines of nested templates, and renders their recursive meaning |
| Template.RenderLine | scripts/render_template.py:97-99 | the loop makes the replacements one variable after another |
| Template.Render | scripts/render_template.py:58-105 | the loop with its stack accepts exactly the templates, yields their meaning, and reports the right error otherwise |
| Conditions.RenderOneBlock | scripts/render_template.py:41-105 | from the raw items on: the first part of a block is rendered exactly if the last item that names the variable gives none of the six false values, the else part otherwise, and the other way round with a negation |
| Conditions.SetTrueIsLookup | scripts/render_template.py:54-80 | the condition holds exactly if that is so, whatever else was assigned |
| Conditions.GivenBinding | scripts/render_template.py:43-50 | an item is read as its name, without blanks around it, and everything behind the first equals sign |
| Template.FaultSamples | scripts/render_template.py:82-103 | which error belongs to which line |
| Template.StripOfBlank | scripts/render_template.py:65-81 | stripping removes exactly the blank ends |
| Template.Blanks | scripts/render_template.py:65-81 | the blanks of ASCII, and nothing that is printed, are stripped |
| Template.DirectivesAreRead | scripts/render_template.py:65-92 | plain and negated conditions, `@else@` and `@endif@` are recognised wherever indented |
| Placeholders.ReplaceFills | scripts/render_template.py:97-99 | replacing one variable over a line fills in its placeholders and no others, if no text between two placeholders is its key, save behind a placeholder of that key |
| Placeholders.PlaceholdersFilled | scripts/render_template.py:97-99 | any number of placeholders, adjacent ones included, get their values if the line stays readable in that sense for each variable in turn |
| Placeholders.SeparatedIsReadable | scripts/render_template.py:97-99 | a line stays readable if every text between two placeholders has a character that is in no key |
| Placeholders.TwoPlaceholdersExactly | scripts/render_template.py:97-99 | a line with two placeholders gets their values, whatever they are, exactly if no key equal to the text between them comes before both of their own |
| Placeholders.MisreadByLuck | scripts/render_template.py:97-99 | a misread line that comes out right by coincidence of values |
| Placeholders.PlaceholderFilled | scripts/render_template.py:97-99 | a line with one placeholder gets its value, or stays when there is none |
| Placeholders.TextTakenForPlaceholder | scripts/render_template.py:97-99 | a line where text between two placeholders is replaced instead of them |
| DayNight.EstimateIsPercentage | package/thingino-daynightd/files/daynightd.c:410-511 | a sample is never negative, and at most 100 except exactly for a raw setting above 255 |
| DayNight.EstimateOfExposure | package/thingino-daynightd/files/daynightd.c:410-428 | the estimate times both gain factors is the unused share of the longest exposure, in percent |
| DayNight.EstimateFalls | package/thingino-daynightd/files/daynightd.c:410-428 | a longer exposure or a higher gain never raises the estimate |
| DayNight.AnswersStandFor | package/thingino-daynightd/files/daynightd.c:437-498 | what the mode, the script and the hour stand for |
| DayNight.MeanMovesSlowly | package/thingino-daynightd/files/daynightd.c:822-842 | one sample moves the average by at most ten |
| DayNight.RotatedWrite | package/thingino-daynightd/files/daynightd.c:466-468 | writing at the index keeps the ring equal to the last ten samples |
| DayNight.FirstMode | package/thingino-daynightd/files/daynightd.c:868-877 | the first mode is set exactly if the mean is past a threshold or within the margin of it |
| DayNight.ThresholdsExactly | package/thingino-daynightd/files/daynightd.c:851-867 | day ends exactly below the low threshold, night exactly above the high one |
| DayNight.SwitchesKeepDelay | package/thingino-daynightd/files/daynightd.c:515-560 | with a monotone clock any two switches, forced or not, are at least the transition delay apart |
| DayNight.UnforcedSwitchesAreApart | package/thingino-daynightd/files/daynightd.c:850-891 | an unforced switch and an unforced switch back are more than a tenth of the threshold gap apart, counted in samples |
| DayNight.TenDarkSamplesEndTheDay | package/thingino-daynightd/files/daynightd.c:820-891 | ten dark samples in a row end the day once the delay has passed and the script works |
| DayNight.TenBrightSamplesEndTheNight | package/thingino-daynightd/files/daynightd.c:820-891 | ten bright samples in a row end the night under the same conditions |
| DayNight.SignalIsObeyedOrLost | package/thingino-daynightd/files/daynightd.c:880-891 | a signal sets its mode exactly if that is the mode already or the delay and the script allow it; otherwise it changes nothing and is forgotten |
| DayNight.NothingWaits | package/thingino-daynightd/files/daynightd.c:880-885 | no signal outlives the turn that sees it |
| DayNight.Daemon.Record | package/thingino-daynightd/files/daynightd.c:501-504 | the newest sample replaces the oldest |
| DayNight.Daemon.Average | package/thingino-daynightd/files/daynightd.c:828-842 | the loop over the ring yields the mean of the last ten samples |
| DayNight.Daemon.TriggerModeChange | package/thingino-daynightd/files/daynightd.c:515-560 | mode and time of the last switch change exactly if the delay has passed and the script succeeds |
| DayNight.Daemon.Turn | package/thingino-daynightd/files/daynightd.c:820-891 | one turn is one step of the state machine, signals included |
| DayNight.Daemon.MainLoop | package/thingino-daynightd/files/daynightd.c:791-911 | the loop runs the state machine from the neutral start |
| Improv.BuildRpcResponse | package/thingino-bluetooth/src/improv/improv.cpp:107-144 | the moving-position builder leaves command, length, strings behind their lengths, and checksum or zero |
| Improv.ParseImprovData | package/thingino-bluetooth/src/improv/improv.cpp:11-59 | for all data, the call ends with the parsed command, or never ends, or reads beyond its data, as the parse function says |
| Improv.ChecksumLoopEnds | package/thingino-bluetooth/src/improv/improv.cpp:25-28 | the loop ends exactly if its bound is at most 255 |
| Improv.EndlessExactly | package/thingino-bluetooth/src/improv/improv.cpp:11-37 | a parse never ends exactly for checked data of 257 or 258 bytes with the right length |
| Improv.ReadsPastExactly | package/thingino-bluetooth/src/improv/improv.cpp:11-57 | for which data the parser reads beyond their end |
| Improv.FrameIsSound | package/thingino-bluetooth/src/improv/improv.cpp:107-144 | a frame states its sum correctly, and its length exactly if the body is shorter than 256 bytes |
| Improv.WifiRoundTrip | package/thingino-bluetooth/src/improv/improv.cpp:11-144 | network name and password come back exactly if their strings fill at most 253 bytes; with 254 or 255 the parser hangs, with more it refuses |
| Improv.SampleFrame | package/thingino-bluetooth/src/improv/improv.cpp:11-144 | one frame in bytes, and what it parses to |
| Improv.SampleRefusals | package/thingino-bluetooth/src/improv/improv.cpp:16-36 | what a wrong length and a wrong sum are reported as |
| Improv.OtherRoundTrip | package/thingino-bluetooth/src/improv/improv.cpp:11-144 | every other command comes back alone, under the same bounds |
| Improv.ChangedByteIsNoticed | package/thingino-bluetooth/src/improv/improv.cpp:11-144 | any single changed byte parses as unknown (the length byte) or as a bad checksum (any other) |
| Improv.UncheckedFrameIsRefused | package/thingino-bluetooth/src/improv/improv.cpp:11-144 | a frame built without a checksum never parses |

## Left out

- Opening `/dev/aes`, the ioctl structures, byte-swap flags, descriptor caching and statistics: replaced by the
  engine's contract.
- Failed allocation of scratch buffers and of temporary buffers: the buffers exist from construction.
- Partly overlapping buffers: a call works in place or between separate arrays. IV, nonce and associated data that a
  call only reads are values.
- `mbedtls_aes_crypt_cfb8`, the XTS key set-up, the CCM* wrappers and the streaming GCM and CCM entry points: wrappers,
  a one-byte variant, or error returns.
- CcmCode.BuildMacInput: the branch for associated data of 0xff00 bytes and more is not modelled, because both callers
  refuse such data first.
- CcmCode.CcmContext.EncryptAndTag: requires that an accepted record fits the staging buffer, which the code does not
  check; counter and length shifts are taken without the width of `size_t`.
- Engine.RequestCbc: a device that reports success and writes something else is outside the contract.
- Cryptographic strength, timing and the clearing of key material.
- Relay.Connection.Run: one connection at a time. The linked list of connections, `accept`, workers, TLS itself and the
  rule that a stalled TLS write be retried with the same bytes are not modelled; bytes still queued at shutdown are
  dropped by the code, and the statement says which they are.
- WakeWord.StepKeepsInv: the shared context is a value that each step replaces, since the steps of several threads
  interleave; initialisation and clean-up, the model and the audio ring are not modelled, nor that the thread which
  reads the audio input may give up on its own.
- Template.Render: reading, splitting into lines and writing files are outside; the output is the list of rendered
  lines before they are joined.
- Placeholders.PlaceholdersFilled: goes one way, because for one choice of values a misread line can still come out
  right (`Placeholders.MisreadByLuck`). The exact condition over all values is proved for two placeholders only, and
  lines, keys and values with other `@` characters are covered by the replacement function only.
- DayNight.Daemon.Turn: rounding of `float`, logging, the value file, configuration reload, and a signal that arrives
  between reading and clearing the pending mode.
- Improv.ParseImprovData: what a read beyond the data finds there.
- The serial byte parser and the Arduino variants in `improv.cpp`.
- The RTSP server, the agent daemon, the telegram bot, ESPHome messages, the certificate generator, the web interface
  and the build scripts other than the renderer: input, output and thin wrappers.
