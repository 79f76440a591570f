# MD5 digest with stage recorder

A Dafny model of `assets/md5.ts`. This file holds the MD5 digest of RFC 1321 that the
visualiser runs. The function `md5(input, stateSetters)` does five things:

- pads the input;
- reads each 64-byte block as 16 little-endian words;
- runs the 64 steps of the four rounds on a working copy of the registers;
- adds the working copy back into the digest registers `A`..`D`;
- returns the 16 bytes of `A`..`D`, each stored little-endian.

Three optional callbacks watch the computation:

- `setStage1` receives the padded blocks as binary strings.
- `setStage2` receives a register snapshot after the first step of every round.
- `setStage3` receives the last block's working and saved registers and the hexadecimal digest.

The project has five modules.

- `Md5Words` (`words.dfy`) covers bytes and words:
  - the JavaScript `>>> 0` reduction;
  - little-endian packing;
  - `F`, `G`, `H`, `I`;
  - `rotateLeft`, with JavaScript's five-bit shift counts;
  - `unsigned32Add` as the source's `reduce`;
  - the bridge between that number arithmetic and 32-bit word arithmetic.
- `Md5Padding` (`padding.dfy`) builds the padded buffer. It has a specification function `Pad` and the source's in-place loops over an `array<bv8>`.
- `Md5Compress` (`compress.dfy`) holds the constants, `getChunk`, the step schedule, one step, the 64 steps, the fold and the block loop as functions. Beside them is RFC 1321's own formulation in 32-bit word arithmetic, proved equal to the source's.
- `Md5Render` (`render.dfy`) holds `toString(2)`, `toString(16)`, `padStart` and `slice(-8)`, with their read-back properties.
- `Md5` (`md5.dfy`) holds what the callbacks receive, the digest, and the imperative methods for the step loop, the block loop and `md5` itself. Each method is proved equal to the specification functions.

Two choices shape the model:

- **Callbacks.** They become an `observe` flag plus the list of calls the method makes, in order. The method's contract says two things. The digest is `Digest(input)` whether or not the calls are observed. The calls are `Trace(input)` when observed and none otherwise.
- **Register types.** The working registers `AA`..`DD` are `bv32`. The digest registers `A`..`D` are exact numbers, because the source's `A += AA` never reduces. Stage 3 renders the saved registers from those unreduced numbers.

## Model

| member | source | states |
|---|---|---|
| Md5Words.ToUint32 | assets/md5.ts:321 | `x >>> 0` lies in [0, 2^32) |
| Md5Words.Word | assets/md5.ts:300-304 | Packs four bytes into a word, the first byte lowest; its properties are the three rows below |
| Md5Words.WordIsLittleEndian | assets/md5.ts:300-304 | The word packed from four bytes is b0 + 2^8 b1 + 2^16 b2 + 2^24 b3 |
| Md5Words.WordOfLeBytes | assets/md5.ts:244-251 | Packing the four little-endian bytes of a word gives the word back |
| Md5Words.LeBytesOfWord | assets/md5.ts:244-251 | The little-endian bytes of a packed word are the four bytes it was packed from |
| Md5Words.ToWord | assets/md5.ts:321 | `>>> 0`, keeping the low 32 bits of a number as a word; its value is stated by `ToWordValue` |
| Md5Words.LeBytes | assets/md5.ts:244-251 | A word stored in the result buffer is four bytes, least significant first; `WordOfLeBytes` and `LeBytesOfWord` show it inverts `Word` |
| Md5Words.ToWordValue | assets/md5.ts:321 | The 32 bits kept from a number, read as a number, are the number modulo 2^32 |
| Md5Words.ToWordAdd | assets/md5.ts:321 | The low 32 bits of a sum are the word sum of the low 32 bits of the terms |
| Md5Words.F | assets/md5.ts:267-269 | The round 1 function on words; its meaning is stated by `FSelects` |
| Md5Words.G | assets/md5.ts:271-273 | The round 2 function on words; its meaning is stated by `GSelects` and `GIsF` |
| Md5Words.H | assets/md5.ts:275-277 | The round 3 function on words; its meaning is stated by `HSelects` |
| Md5Words.I | assets/md5.ts:279-281 | The round 4 function on words; its meaning is stated by `ISelects` |
| Md5Words.FSelects | assets/md5.ts:267-269 | F takes each bit from y where x is 1 and from z where x is 0 |
| Md5Words.GSelects | assets/md5.ts:271-273 | G takes each bit from x where z is 1 and from y where z is 0 |
| Md5Words.GIsF | assets/md5.ts:271-273 | G(x, y, z) = F(z, x, y) |
| Md5Words.HSelects | assets/md5.ts:275-277 | H copies each bit of x where y and z agree and flips it where they differ |
| Md5Words.ISelects | assets/md5.ts:279-281 | I gives NOT y where z is 0 and y XOR x where z is 1 |
| Md5Words.Mod32Value | assets/md5.ts:291 | The five-bit counter that stands for JavaScript's masking of shift counts holds n mod 32 |
| Md5Words.ShiftCount | assets/md5.ts:291 | The shift count JavaScript uses for a non-negative amount n is n mod 32 |
| Md5Words.ShiftCountComplement | assets/md5.ts:291 | The masked shift counts of n and 32 - n add up to 0 modulo 32 |
| Md5Words.ShiftCountPeriodic | assets/md5.ts:291 | Shift counts repeat with period 32 |
| Md5Words.Rotl | assets/md5.ts:291 | The source's shift-or expression with a masked count; `RotlIsRotateLeft` states that it rotates |
| Md5Words.RotlIsRotateLeft | assets/md5.ts:291 | For every k below 32, the source's left shift by k OR-ed with the unsigned right shift by 32 - k is x rotated left by k bits (Dafny's 32-bit `RotateLeft`) |
| Md5Words.RotateLeft | assets/md5.ts:286-292 | `rotateLeft` fails exactly when n is negative, and rotation by 0 returns x |
| Md5Words.RotateLeftRotates | assets/md5.ts:286-292 | For every n >= 0, `rotateLeft(x, n)` succeeds and returns x rotated left by n mod 32 bits |
| Md5Words.RotlInverse | assets/md5.ts:291 | Rotating left by k and then by (32 - k) mod 32 gives x back, for every k below 32 |
| Md5Words.RotateLeftInverse | assets/md5.ts:286-292 | For 0 <= n <= 32, `rotateLeft(rotateLeft(x, n), 32 - n)` succeeds and returns x |
| Md5Words.RotateLeftPeriodic | assets/md5.ts:286-292 | Rotating by n + 32 is rotating by n |
| Md5Words.AddBelowModulus | assets/md5.ts:215-218 | Adding a value below 2^32 to an unreduced register and then reducing equals adding it to the reduced register and reducing |
| Md5Words.Reduce | assets/md5.ts:321 | The `reduce` of `unsigned32Add` from a given accumulator; its result is stated by `ReduceIsSum` and `ReduceBelow` |
| Md5Words.ReduceIsSum | assets/md5.ts:321 | The `reduce` with reductions at every step gives the exact sum modulo 2^32 |
| Md5Words.ReduceBelow | assets/md5.ts:321 | Every accumulator of the `reduce` lies in [0, 2^32) |
| Md5Words.Unsigned32Add | assets/md5.ts:320-322 | The result of `unsigned32Add` lies in [0, 2^32) |
| Md5Words.Unsigned32AddIsSum | assets/md5.ts:320-322 | `unsigned32Add(...args)` is the sum of the arguments modulo 2^32, and 0 for no arguments |
| Md5Words.Unsigned32AddWords2 | assets/md5.ts:192-195 | `unsigned32Add` of two words, kept as a word, is their 32-bit word sum |
| Md5Words.Unsigned32AddWords4 | assets/md5.ts:194 | `unsigned32Add` of four words, kept as a word, is their 32-bit word sum |
| Md5Words.ToWordPlusWord | assets/md5.ts:215-218 | Adding a word to an unreduced register and keeping 32 bits is the word sum with the register's low 32 bits |
| Md5Padding.Zeros | assets/md5.ts:51-57 | The zero bytes of `PADDING`: n bytes, all 0 |
| Md5Padding.PaddingLength | assets/md5.ts:94-95 | `paddingLength` is in 1..64, fits in `PADDING`, and makes size + paddingLength congruent to 56 modulo 64 |
| Md5Padding.PaddingLengthUnique | assets/md5.ts:94-95 | Those two conditions determine `paddingLength` |
| Md5Padding.NumBlocks | assets/md5.ts:122 | `numBlocks`; `PadLength` states that the padded buffer is exactly numBlocks blocks, at least one |
| Md5Padding.SizeBitsLower | assets/md5.ts:109 | The low length word; `LengthBytesValue` states its value |
| Md5Padding.SizeBitsUpper | assets/md5.ts:110 | The high length word; `LengthBytesValue` states its value |
| Md5Padding.LengthBytes | assets/md5.ts:113-120 | The eight length bytes, lower word first, each word least significant byte first |
| Md5Padding.LengthBytesValue | assets/md5.ts:109-120 | The eight length bytes read as two little-endian words are size·8 mod 2^32 and floor(size·8 / 2^32) mod 2^32 |
| Md5Padding.Pad | assets/md5.ts:93-120 | The padded buffer as a value; `PadLength`, `PadLayout` and `PadInjective` state its shape, and `PadMessage` that the source's loops build it |
| Md5Padding.PadLength | assets/md5.ts:96-122 | The padded buffer has size + paddingLength + 8 bytes, which is 64·numBlocks with numBlocks >= 1 |
| Md5Padding.BlocksCover | assets/md5.ts:122 | When n is 56 modulo 64, ceil(n / 64) blocks hold exactly n + 8 bytes |
| Md5Padding.PadLayout | assets/md5.ts:99-120 | The padded buffer is the input, 0x80, zero bytes up to the length, then the eight length bytes, and nothing else |
| Md5Padding.PadInjective | assets/md5.ts:93-120 | Distinct inputs have distinct padded buffers |
| Md5Padding.CopyInput | assets/md5.ts:99-101 | The copy loop puts the input at the front and leaves the rest of the buffer unchanged |
| Md5Padding.CopyPadding | assets/md5.ts:104-106 | The padding loop writes `PADDING[..paddingLength]` at `size` and changes nothing else |
| Md5Padding.StoreLength | assets/md5.ts:109-120 | The eight stores write the length bytes into the last eight places and change nothing before them |
| Md5Padding.PadMessage | assets/md5.ts:93-120 | The buffer built in place is `Pad(input)` |
| Md5Compress.ChunkWords | assets/md5.ts:297-307 | A chunk has exactly 16 words |
| Md5Compress.ChunkWordValue | assets/md5.ts:297-307 | Word j of chunk i is buf[64i+4j] + 2^8 buf[64i+4j+1] + 2^16 buf[64i+4j+2] + 2^24 buf[64i+4j+3] |
| Md5Compress.ChunkWordBytes | assets/md5.ts:297-307 | Storing word j little-endian gives back bytes 64i+4j .. 64i+4j+3 |
| Md5Compress.GetChunk | assets/md5.ts:297-307 | The loop that fills `m` returns `ChunkWords` of the buffer |
| Md5Compress.InitialBuffer | assets/md5.ts:25-28 | The digest registers start at A0..D0; `InitialWords` states that these are RFC 1321's initial words |
| Md5Compress.RoundFunction | assets/md5.ts:169-187 | The round function E of step j: F, G, H, I for the four groups of 16 steps |
| Md5Compress.MessageIndex | assets/md5.ts:169-187 | The message index g of every step lies in [0, 16) |
| Md5Compress.StepReading | assets/md5.ts:169-187 | The inverse schedule names a step of the given round |
| Md5Compress.StepReadingReads | assets/md5.ts:169-187 | In every round, every message word is read by some step |
| Md5Compress.MessageIndexDeterminesStep | assets/md5.ts:169-187 | Within a round, no two steps read the same word, so each word is read exactly once per round |
| Md5Compress.Step | assets/md5.ts:189-196 | One step over the working registers with the tables `K` and `S`; `StepIsRfcStep` states what it computes |
| Md5Compress.StepReadsOneWord | assets/md5.ts:189-196 | A step depends on the block only through word `m[g]` |
| Md5Compress.RotateLeftIsRotated | assets/md5.ts:286-292 | `rotateLeft` by a non-negative amount is the 32-bit rotation by that amount modulo 32 |
| Md5Compress.StepCore | assets/md5.ts:192-195 | The new `BB` (two `unsigned32Add` calls around a `rotateLeft`) is b + ((a + E + K[j] + m[g]) <<< S[j]) in 32-bit words |
| Md5Compress.StepIsRfcStep | assets/md5.ts:169-196 | The source's step is RFC 1321's step: (AA, BB, CC, DD) becomes (DD, BB + rotl(AA + E + K[j] + m[g], S[j]), BB, CC), modulo 2^32 |
| Md5Compress.Steps | assets/md5.ts:169-213 | The working registers after the first n steps; `StepsAreRfcSteps` states what they are |
| Md5Compress.StepsAreRfcSteps | assets/md5.ts:169-213 | The source's first n steps are RFC 1321's first n steps |
| Md5Compress.InitialWords | assets/md5.ts:25-28 | The initial registers are RFC 1321's A, B, C, D |
| Md5Compress.WorkingCopy | assets/md5.ts:153-156 | `AA`..`DD` as words, that is the low 32 bits of `A`..`D` |
| Md5Compress.Fold | assets/md5.ts:215-218 | `A += AA` and the like, unreduced; `FoldAddsWorkingCopy` and `FoldIsRfcAdd` state what it computes |
| Md5Compress.Compress | assets/md5.ts:152-218 | One block: a working copy, the 64 steps, then the fold |
| Md5Compress.BufferAfter | assets/md5.ts:150-227 | The digest registers after the first n blocks; `BufferAfterIsRfc` states what they are |
| Md5Compress.FoldAddsWorkingCopy | assets/md5.ts:215-218 | Modulo 2^32, each digest register gains its working register |
| Md5Compress.ToWordAddWord | assets/md5.ts:215-218 | The low 32 bits of `A + AA` are the word sum of the low 32 bits of `A` and `AA` |
| Md5Compress.FoldIsRfcAdd | assets/md5.ts:215-218 | The unreduced fold, read modulo 2^32, is RFC 1321's word-wise addition |
| Md5Compress.BufferAfterIsRfc | assets/md5.ts:150-227 | After any number of blocks, the low 32 bits of A..D are RFC 1321's registers |
| Md5Render.DigitChar | assets/md5.ts:127 | Every digit character is a lowercase hexadecimal character |
| Md5Render.DigitValueOfChar | assets/md5.ts:127 | A digit character reads back as its digit |
| Md5Render.ToRadix | assets/md5.ts:127 | `toString(radix)` gives at least one digit, each below the radix, with no leading zero unless the number is 0 |
| Md5Render.ParseToRadix | assets/md5.ts:127 | `toString(radix)` reads back as the number |
| Md5Render.ToRadixLength | assets/md5.ts:199-202 | A number below radix^k has at most k digits |
| Md5Render.Repeat | assets/md5.ts:127 | The fill of `padStart`: k copies of one character |
| Md5Render.PadStart | assets/md5.ts:127 | `padStart(width)` has length max(width, length) |
| Md5Render.SliceLast | assets/md5.ts:231-234 | For k > 0, `slice(-k)` is the last min(k, length) characters of the string |
| Md5Render.ParseAppend | assets/md5.ts:251-253 | A concatenation of digit strings reads as the first part shifted by the length of the second, plus the second |
| Md5Render.ParseZeros | assets/md5.ts:127 | A string of zeros reads as 0 |
| Md5Render.ParsePadStart | assets/md5.ts:127 | Padding with leading zeros does not change the value read back |
| Md5Render.PaddedExact | assets/md5.ts:127 | A number below radix^width is exactly width digits that read back as the number |
| Md5Render.Padded | assets/md5.ts:127 | `toString(radix).padStart(width, "0")` of a non-negative number; `PaddedExact` states when it is exactly width digits |
| Md5Render.HexBytes | assets/md5.ts:251-253 | Each byte as two hex digits, joined; `HexBytesLayout` states the layout |
| Md5Render.HexBytesLayout | assets/md5.ts:251-253 | The hex of n bytes is 2n lowercase hex characters, and characters 2k and 2k+1 read back as byte k |
| Md5Render.SignedRadix | assets/md5.ts:231 | `toString(radix)` of any integer: a minus sign before the digits of a negative number |
| Md5Render.HexTail8 | assets/md5.ts:231-234 | `toString(16).padStart(8, "0").slice(-8)`; `HexTail8Exact` states its result for values in [0, 2^32) |
| Md5Render.HexTail8Exact | assets/md5.ts:231-234 | `toString(16).padStart(8).slice(-8)` of a value in [0, 2^32) is 8 hex digits reading back as the value |
| Md5Render.BinaryExact | assets/md5.ts:127 | `toString(2).padStart(width)` of a value below 2^width is exactly width binary digits reading back as the value |
| Md5.Binary8 | assets/md5.ts:127 | A stage 1 byte string; `Binary8Exact` states it |
| Md5.Stage1Log | assets/md5.ts:125-129 | The stage 1 rows; `Stage1LogExact` states their shape and contents |
| Md5.RegisterBits | assets/md5.ts:199-202 | A stage 2 register string; `RegisterBitsExact` states it |
| Md5.RegsSnapshot | assets/md5.ts:199-209 | The `{A, B, C, D}` object pushed at a round start; `RegisterBitsExact` states each string and `RoundSnapshotsAt` which registers it shows |
| Md5.Binary8Exact | assets/md5.ts:127 | Each stage 1 byte string is 8 binary digits that read back as the byte |
| Md5.Stage1LogExact | assets/md5.ts:125-130 | Stage 1 has numBlocks rows of 64 strings, and string k of row i is 8 binary digits reading back as byte 64i+k of the padded buffer |
| Md5.RegisterBitsExact | assets/md5.ts:199-202 | Each stage 2 register string is 32 binary digits reading back as the register |
| Md5.RoundSnapshots | assets/md5.ts:198-209 | The first n round snapshots of a block, n of them |
| Md5.Snapshots | assets/md5.ts:150-213 | The snapshots pushed by the first n blocks; `SnapshotsLength` and `SnapshotsAt` state them |
| Md5.Stage2Events | assets/md5.ts:210-211 | The `setStage2` calls for a list of pushes; `Stage2EventsLength` and `Stage2EventsAt` state them |
| Md5.RoundSnapshotsAt | assets/md5.ts:198-209 | Snapshot k of a block shows the working registers after step 16k + 1, that is after step j = 16k |
| Md5.SnapshotsLength | assets/md5.ts:204 | n blocks push 4n snapshots |
| Md5.SnapshotsAt | assets/md5.ts:150-213 | Snapshot 4i + k shows block i's working registers after step j = 16k |
| Md5.Stage2EventsLength | assets/md5.ts:211 | One `setStage2` call per snapshot |
| Md5.Stage2EventsAt | assets/md5.ts:210-211 | Call i passes round i mod 4 + 1 and the first i + 1 snapshots |
| Md5.Hex8 | assets/md5.ts:238-241 | A saved string, `toString(16).padStart(8, "0")` of an unreduced register |
| Md5.Hex8Reads | assets/md5.ts:238-241 | A saved string is at least 8 lowercase hex digits and reads back as the unreduced register; it is exactly 8 digits when the register is below 2^32, and when longer it has no leading zero |
| Md5.WorkingHexExact | assets/md5.ts:231-234 | `finalX - lastXX` renders as exactly 8 lowercase hex digits that read back as the working register |
| Md5.Stage3Of | assets/md5.ts:229-259 | The `setStage3` call; `Stage3OfExact` and `Stage3Reconstructs` state its contents |
| Md5.Stage3OfExact | assets/md5.ts:229-259 | Every stage 3 string consists of lowercase hex digits: the working strings are 8 digits that read back as the last block's working registers, the saved strings read back as its entry registers, are exactly 8 digits for entry registers below 2^32 (always so for a one-block input) and otherwise have no leading zero, and the final string is 32 digits whose pairs read back as the digest bytes |
| Md5.Stage3Reconstructs | assets/md5.ts:229-242 | working.X + saved.XX, read back, is the final register X |
| Md5.Stages | assets/md5.ts:124-259 | The calls for a padded buffer of n blocks; `StagesLayout` states their order and shape |
| Md5.Trace | assets/md5.ts:124-259 | The calls for an input: `Stages` of its padded buffer |
| Md5.StagesLayout | assets/md5.ts:124-259 | The calls are one `setStage1`, then 4·numBlocks `setStage2` calls in round order 1, 2, 3, 4, 1, …, then one `setStage3` |
| Md5.DigestBytes | assets/md5.ts:244-249 | The result buffer has 16 bytes |
| Md5.FinalBuffer | assets/md5.ts:150-227 | The digest registers after the block loop; `BufferAfterIsRfc` and `DigestIsRfcDigest` state their low 32 bits |
| Md5.Digest | assets/md5.ts:244-249 | The returned bytes: the digest registers after the last block, each stored little-endian |
| Md5.DigestIsRfcDigest | assets/md5.ts:79-262 | For every input, the source's number arithmetic (`unsigned32Add`, unreduced `A += AA`, stores through `Uint32Array`) gives the same 16 bytes as RFC 1321's steps and additions in 32-bit word arithmetic, over the same padding, tables, schedule and round functions, with rotation taken as Dafny's built-in 32-bit rotation |
| Md5.RunStep | assets/md5.ts:169-196 | One pass of the step loop body computes `Step` |
| Md5.Record | assets/md5.ts:198-212 | The push adds the binary snapshot of the registers, and an observed call passes round floor(j/16)+1 with the snapshots so far |
| Md5.RunSteps | assets/md5.ts:169-213 | The step loop computes the 64 steps, pushes the four round snapshots, and makes one `setStage2` call per push |
| Md5.RunBlocks | assets/md5.ts:150-227 | The block loop computes the digest registers after every block, saves the last block's entry and exit registers, and pushes all snapshots |
| Md5.Md5 | assets/md5.ts:79-262 | `md5` returns `Digest(input)` whether or not it is observed, and observed calls are exactly `Trace(input)` |

## Left out

- The conversion of `input` to bytes (`input.toString()` and `charCodeAt`, assets/md5.ts:84 and 100) is not modelled. The model takes the input as bytes. The source stores only the low 8 bits of each UTF-16 code unit and counts code units as `size`.
- JavaScript numbers are doubles; the model uses exact integers.
  - The upper length word divides by 2^32 in floating point (assets/md5.ts:110). It is modelled as integer division, which agrees for every size below 2^50.
  - The digest registers grow by less than 2^32 per block. They stay exact only while below 2^53.
  - `Math.ceil` on the padded length (assets/md5.ts:122) is integer division rounding up.
- The working registers start as the low 32 bits of `A`..`D`. The source copies the unreduced numbers, but every reader reduces them: the bitwise round functions, `>>> 0` in `unsigned32Add`, and the `>>> 0` of the stage 2 strings.
- The `Uint32Array` view over the result (assets/md5.ts:245) is modelled for a little-endian host only.
- `stage2State` is one mutable object, passed to every `setStage2` call, that keeps growing. The model passes each call a copy of the list as it stands at that call. Aliasing that lets a callback see later pushes is not captured.
- Callbacks that throw, and the callbacks' own effects, are not part of the model.
- Md5Words.RotateLeft: a non-integer amount, the source's other failure, cannot be expressed with an `int` argument.
- The RFC 1321 test vector for the empty input (d41d8cd98f00b204e9800998ecf8427e) is not proved. The verifier cannot evaluate the 64 steps over the 64-entry literal tables. What is proved instead (`Md5.DigestIsRfcDigest`) is narrower than agreement with an independent RFC 1321 definition: the reference shares `Pad`, `NumBlocks`, `ChunkWords`, `K`, `S`, `RoundFunction` and `MessageIndex` with the model, so the tables, the padding and the schedule are checked only by reading them against RFC 1321. What the proof shows is that the source's number arithmetic equals 32-bit word arithmetic, and that its shift-or expression is a rotation.
- Md5.DigestIsRfcDigest: holds for exact integers only. In the source `A += AA` adds doubles; each block adds less than 2^32, so after about 2^21 blocks (about 128 MiB of input) a register can pass 2^53, low bits are lost, and the result is no longer the MD5 digest. The model does not capture this.
- The React page (app/page.tsx) is presentation only and is not part of this model.

## Source behaviour worth noting

- The saved strings of stage 3 are built from `lastAA`..`lastDD`, which are the unreduced `A`..`D` (assets/md5.ts:160-163, 238-241). For inputs of two or more blocks these numbers can exceed 2^32; the strings are then longer than eight digits. The model proves that they read back as those numbers, are exactly eight digits below 2^32 and have no leading zero above (`Md5.Hex8Reads`).
- Every `setStage2` call receives the same object `stage2State` (assets/md5.ts:133-136, 204-211). Its list holds every snapshot pushed so far, not only the current one, and its `round` is the round of the latest push.
