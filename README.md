# Magma (GOST R 34.12-2015) in Dafny

This project models the cipher engine of `magma.cpp`. That program is a
teaching implementation of the 64-bit block cipher "Magma" of GOST R 34.12-2015
(RFC 8891). The model covers:

- **Substitution layer.** The eight S-boxes and the nonlinear map `t`
  (`substitution.dfy`, module `Substitution`).
- **Round function.** `g[k]`: addition modulo 2^32, `t`, then rotation left by
  11 bits (`round_function.dfy`, module `RoundFunction`).
- **Block engine.** The Feistel round `round` and the 32-round block functions
  `encrypt_block` and `decrypt_block`, over a block held as two 32-bit halves
  (`feistel.dfy`, module `Feistel`).
- **Key schedule.** `generate_round_keys` and the non-standard 56-bit key
  expansion `expand_key` (`key_schedule.dfy`, module `KeySchedule`).
- **Padding codec.** `pad_block` and `unpad_block` (`padding.dfy`, module
  `Padding`).
- **Volume check.** `check_key_usage` (`key_usage.dfy`, module `KeyUsage`).
- **Buffer pipeline.** Steps 6 to 9 of `main`: the key-usage check, padding on
  encryption, the block loop in electronic codebook mode, and unpadding on
  decryption. It runs over a byte sequence with no file I/O (`pipeline.dfy`,
  module `Pipeline`).
- **Helpers.** Big-endian packing of bytes into words (`words.dfy`, module
  `Words`) and sequence reversal (`sequences.dfy`, module `Sequences`).

How the source's style maps onto Dafny:

- Words are `bv32` and bytes are `bv8`. bv32 addition wraps modulo 2^32 exactly
  as `uint32_t` does.
- `t`, `g` and `check_key_usage` are pure functions.
- `round`, `encrypt_block` and `decrypt_block` change their reference
  parameters `left` and `right`. They are methods that take the halves in and
  return the new halves.
- The block functions keep their 32-step loops. Each loop is proved against the
  specification functions `Feistel.Encrypt` and `Feistel.Decrypt`.
- The specification of a round (`Feistel.Step`) and of a run of rounds
  (`Feistel.Rounds`) takes the round function as a parameter. The inversion
  lemmas hold for every round function; `Feistel.Encrypt`, `Feistel.Decrypt`
  and the `round` method use g.
- `expand_key` and `generate_round_keys` fill caller-owned arrays in loops. So
  do the methods that model them.
- `pad_block`, `unpad_block` and the pipeline keep their loops. They work on
  sequences.

The pipeline's error branch for encryption of data that is not a whole number
of blocks (magma.cpp:223-226) cannot be reached, because encryption only runs
over padded data. `Pipeline.ProcessBlocks` proves this with an assertion
instead of modelling the branch.

## Model

| member | source | states |
|---|---|---|
| `Words.BytesOfWordOf` | magma.cpp:230-250 | writing a block half back with the four `>> 24 ... & 0xFF` pushes gives back the four bytes it was packed from |
| `Words.WordOfBytesOf` | magma.cpp:230-250 | packing the four bytes of a half, most significant first, gives the half back: no bit is lost |
| `Substitution.SBoxes` | magma.cpp:14-23 | `S_BOXES` has eight rows, one per nibble of a word, of sixteen entries each; `RowsInverse` and `SBoxRowIsPermutation` state that each row is a permutation |
| `Substitution.RowsInverse` | magma.cpp:14-23 | each S-box row and the matching row of the inverse table undo each other on every nibble |
| `Substitution.SBoxRowIsPermutation` | magma.cpp:14-23 | every row of `S_BOXES` is a permutation of 0..15: every nibble occurs, and no two inputs share an image |
| `Substitution.NibblesOfAssemble` | magma.cpp:29-33 | or-ing each substituted nibble into bits 4i to 4i + 3 of the result puts each of the eight nibbles in its own slot, and reading the slots back gives them again |
| `Substitution.AssembleOfNibbles` | magma.cpp:29-33 | reassembling the eight `(a >> 4i) & 0xF` nibbles of a word gives the word back |
| `Substitution.T` | magma.cpp:26-36 | for every word a, nibble i of t(a) is `S_BOXES[i]` applied to nibble i of a |
| `Substitution.TInverseOfT` | magma.cpp:26-36 | t is one-to-one: the inverse tables recover a from t(a) |
| `Substitution.TOfTInverse` | magma.cpp:26-36 | t is onto: every word is t of some word, so t is a bijection on 32-bit words |
| `RoundFunction.Rotate11` | magma.cpp:47 | shifting left by 11 and or-ing in the top 11 bits shifted right by 21 is the circular rotation left by 11 bits |
| `RoundFunction.RotationIsCircular` | magma.cpp:47 | rotating back by 11 bits undoes the rotation both ways, so the rotation loses no bit |
| `RoundFunction.G` | magma.cpp:39-50 | g(a, k) is t(a + k mod 2^32) rotated left by 11 bits |
| `RoundFunction.GUnrotated` | magma.cpp:39-50 | rotating g's result back gives exactly t(a + k): g keeps every bit of t's output |
| `RoundFunction.GRecoversSum` | magma.cpp:39-50 | the sum a + k mod 2^32 can be recovered from g(a, k) |
| `Feistel.Round` | magma.cpp:53-57 | `round` maps (L, R) to (R, L xor g(R, k)); applied to the exchanged result with the same key, it gives back the exchanged input |
| `Feistel.StepUndoesStep` | magma.cpp:53-57 | a round, exchanged, then the same round with the same key, gives the exchanged input, for any round function |
| `Feistel.RoundsReversed` | magma.cpp:88-111 | the rounds of any key sequence are undone by the rounds of the reversed sequence between two exchanges of the halves, for any round function |
| `Feistel.DecryptEncrypt` | magma.cpp:88-111 | decryption inverts encryption for any round keys |
| `Feistel.EncryptDecrypt` | magma.cpp:88-111 | encryption inverts decryption for any round keys |
| `Feistel.EncryptBlock` | magma.cpp:88-98 | `encrypt_block` runs the rounds with round_keys[0..31] in order, then exchanges the halves; `decrypt_block`'s specification undoes its result |
| `Feistel.DecryptBlock` | magma.cpp:101-111 | `decrypt_block` runs the rounds with round_keys[31..0], then exchanges the halves; `encrypt_block`'s specification undoes its result |
| `KeySchedule.Schedule` | magma.cpp:60-70 | round key i is key word i mod 8 for the first 24 rounds, and key word 31 - i for the last 8 |
| `KeySchedule.ScheduleReversed` | magma.cpp:60-70 | read backwards, as `decrypt_block` reads it, the schedule is K1..K8 once, then K8..K1 three times |
| `KeySchedule.ScheduleUsesEachWordInFourRounds` | magma.cpp:60-70 | key word j + 1 is the round key of rounds j + 1, j + 9, j + 17 and 32 - j |
| `KeySchedule.GenerateRoundKeys` | magma.cpp:60-70 | all 32 round-key slots are written with the schedule of key_256[0..8), nothing past them changes, and this holds even when the two arrays are the same |
| `KeySchedule.ExpandedWords` | magma.cpp:73-85 | word 7i + j of the expansion is key byte j for i < 4 and j < 7, and word 28 + i is key byte i for i < 4 |
| `KeySchedule.ExpandedWordsAreBytes` | magma.cpp:73-85 | every expanded word is below 256, and the first seven give the key bytes back |
| `KeySchedule.ExpandKey` | magma.cpp:73-85 | `expand_key` needs a 32-word output buffer, writes exactly key_256[0..32) with the expansion, and changes nothing else |
| `KeySchedule.MainKeyBufferTooSmall` | magma.cpp:182-183 | main's `key_256` buffer holds fewer words than `expand_key` writes, so that call breaks `ExpandKey`'s precondition |
| `KeySchedule.MainRoundKeysAreBytes` | magma.cpp:182-186 | the round keys scheduled from the eight words main's buffer can hold are all below 256 |
| `KeySchedule.PackedKey` | magma.cpp:74-84 | the corrected expansion: the 32 key-material bytes packed most significant first into exactly the eight words main declares |
| `KeySchedule.RoundKeysKeepKeyMaterial` | magma.cpp:74-84 | with the corrected expansion, the 256 bits of key material can be read back from the first eight round keys |
| `Padding.Pad` | magma.cpp:131-139 | padding keeps the data as a prefix, puts 0x80 right after it and zeros after that, grows it by 1 to 8 bytes, and ends on a multiple of 8 |
| `Padding.PadBlock` | magma.cpp:131-139 | the push-0x80-then-zeros loop computes exactly `Pad` |
| `Padding.ScanDown` | magma.cpp:146-149 | the scan stops at or below its start, skips only zero bytes, and stops on a non-zero byte unless it reaches index 0 |
| `Padding.Unpad` | magma.cpp:142-154 | unpadding never lengthens the data and keeps a prefix of it; it cuts exactly at the 0x80 that only zeros follow when there is one, and leaves the data unchanged otherwise (the empty sequence included) |
| `Padding.UnpadBlock` | magma.cpp:142-154 | the scan-down loop and the cut compute exactly `Unpad` |
| `Padding.UnpadPad` | magma.cpp:131-154 | unpadding undoes padding for every byte sequence, the empty one included |
| `KeyUsage.CheckKeyUsage` | magma.cpp:157-166 | processing is refused if and only if more than 20 KiB are to be processed; the warning is given if and only if the amount is above 10 KiB and allowed, so a warning never refuses |
| `KeyUsage.RefusalIsMonotone` | magma.cpp:157-166 | once an amount is refused, every larger amount is refused too |
| `Pipeline.CryptBlockInverse` | magma.cpp:229-250 | packing a block big-endian, encrypting it and writing it back is undone by the same steps with decryption, and the other way round |
| `Pipeline.EcbInverse` | magma.cpp:212-251 | the block loop in one direction undoes the loop in the other, trailing part included, for any data and keys |
| `Pipeline.EcbAppend` | magma.cpp:212-251 | codebook mode: the loop's output on whole blocks followed by more data is the output on each part alone |
| `Pipeline.Ecb` | magma.cpp:212-251 | the block loop's output is as long as its input: every whole block gives eight bytes and a trailing part is copied |
| `Pipeline.CryptAt` | magma.cpp:229-250 | one pass of the loop body computes the block's encryption or decryption with the 32 round keys |
| `Pipeline.CopyTail` | magma.cpp:219-221 | the inner loop copies exactly the bytes from position i to the end |
| `Pipeline.ProcessBlocks` | magma.cpp:212-251 | the block loop's output is every whole block encrypted or decrypted, then any trailing part copied; the encryption error branch is unreachable |
| `Pipeline.Run` | magma.cpp:203-256 | steps 6 to 9 refuse exactly the inputs above the 20 KiB budget, report the warning exactly above 10 KiB, and encrypt to a whole number of blocks |
| `Pipeline.Process` | magma.cpp:203-256 | the steps compute `Run`: refused above the key budget, otherwise padded if encrypting unaligned data, run through the block loop, and unpadded if decrypting |
| `Pipeline.EncryptedLength` | magma.cpp:207-251 | encryption within the budget succeeds; its output has the data's length when that is a multiple of 8, the padded length otherwise, and is always a multiple of 8 |
| `Pipeline.PaddedFitsBudget` | magma.cpp:203-210 | data below the 20 KiB budget is still within it after padding |
| `Pipeline.DecryptEncrypted` | magma.cpp:203-256 | for every input within the budget, decrypting main's encryption output gives the prepared plaintext, unpadded |
| `Pipeline.RoundTripUnaligned` | magma.cpp:203-256 | data that is not a multiple of 8 bytes and is within the budget comes back unchanged from encryption then decryption |
| `Pipeline.RoundTripAligned` | magma.cpp:207-256 | data that is a multiple of 8 bytes comes back from encryption then decryption as `Unpad` of itself |
| `Pipeline.MarkerEndedBlockLosesItsEnd` | magma.cpp:207-256 | the 8-byte plaintext 41 80 00 00 00 00 00 00 comes back as the single byte 41, for any round keys |
| `Pipeline.RoundTripPaddingAlways` | magma.cpp:207-256 | when every plaintext is padded, every plaintext below the budget comes back unchanged |
| `Pipeline.PaddingAlwaysRefusesFullBudget` | magma.cpp:157-166 | with every plaintext padded, a plaintext of exactly 20 KiB encrypts to 20 KiB + 8 bytes, whose decryption the budget check refuses |
| `Pipeline.RoundTripCorrected` | magma.cpp:182-256 | with the packed key and padding always applied, decryption of the encryption is the plaintext, with the warning flag of the padded length |

## Left out

- Reading the key file (`read_key`) and all other file input and output: input files, the output file, and the final comparison with `input.txt` (magma.cpp:114-128, 188-200, 258-265, 274-288). The pipeline takes the input bytes and the round keys as parameters and returns the output bytes.
- Command-line parsing and exit codes (magma.cpp:168-175). The mode is a boolean parameter. The exit on a refused key budget is the `Refused` outcome. Other failed exits come from I/O.
- Timing with `chrono` and the printed duration (magma.cpp:169, 267-272): a clock and floating point.
- Diagnostics on `cerr` and `cout`. The 10 KiB warning of `check_key_usage` is the `warned` flag of the verdict.
- The `is_encryption` parameter of `check_key_usage`: the function never reads it.
- The promotion of `uint8_t` to `int` in `input_data[i] << 24` (magma.cpp:230-233). It is modelled as plain big-endian packing of four bytes into a `bv32`.
- Update in place: `pad_block` and `unpad_block` change a `vector` in place, and `round`, `encrypt_block` and `decrypt_block` change reference parameters. The model passes values in and returns results. No aliasing between them is possible in the source.
- The memory `expand_key` overwrites when `main` hands it an 8-word buffer: that is undefined behaviour. The model only records that the call breaks `ExpandKey`'s precondition.
- `Pipeline.Ecb` copies a trailing part shorter than a block in both directions. The source copies it only when decrypting and reports an error when encrypting. `Pipeline.ProcessBlocks` proves that the encrypting case never arises.
- An inverse of g: `RoundFunction.GRecoversSum` recovers a + k from g(a, k), and `Substitution.TInverseOfT`/`TOfTInverse` prove t a bijection. The model does not state subtraction of the key as a closed-form inverse of g. The Feistel inversion does not need it.

## Findings

| source | as written | input that shows it | evidently intended | confidence | as-written member | corrected member |
|---|---|---|---|---|---|---|
| magma.cpp:182-183 | `main` declares `uint32_t key_256[8]`, but `expand_key` writes 32 words into it, one key byte per word (magma.cpp:73-85). The round keys built from the eight words that fit are all below 256. | every key: the call writes key_256[8..32) | the 7 key bytes repeated into 32 bytes (256 bits) and packed into the 8 words of `key_256`, most significant byte first, as the comments of `expand_key` and the declaration describe | medium, not executed | `KeySchedule.MainKeyBufferTooSmall` | `KeySchedule.PackedKey` |
| magma.cpp:207-256 | encryption pads (line 208) only data that is not a whole number of blocks, but decryption always unpads (lines 254-256) | plaintext 41 80 00 00 00 00 00 00 decrypts to 41 | pad every plaintext on encryption (ISO/IEC 7816-4 padding method 2), so that unpadding after decryption always restores it; the budget check then refuses to decrypt the ciphertext of a plaintext of exactly 20 KiB, which is 8 bytes over the budget (`Pipeline.PaddingAlwaysRefusesFullBudget`) | high, not executed | `Pipeline.MarkerEndedBlockLosesItsEnd` | `Pipeline.RoundTripPaddingAlways` |
