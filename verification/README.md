# biscrack in Dafny

biscrack recovers the Broadcast Code of an encrypted Bluetooth LE Audio
broadcast (a BIG). It is given:
- one captured encrypted BIS PDU;
- the BIGInfo record of the stream;
- the PDU's payload counter.

From these it derives the IV and nonce of BIS 1. Then it tries Broadcast Code
candidates in parallel workers. For each candidate it derives the Group Session
Key (GSK) through h7, h6 and h8, and tries to CCM-decrypt the PDU with it. The
first candidate whose tag verifies is the answer. The candidates are either:
- every number below 2^(8L), printed as hex text; or
- the lines of a wordlist.

This project models that core and proves what it computes:

- `Util` (util.c) covers the BIS access address of section 2.1.2 of Part B,
  Volume 6 of the Bluetooth Core Specification 5.2. That means the diversifier
  `d`, the high bytes of DW, and the XOR into the seed access address. It also
  has the byte-wise XOR loop `mem_xor_n`.
- `BtBis` (bt_bis.c) covers the IV, the 13-byte CCM nonce, the
  h7 → h6 → h8 GSK chain with its early returns and final byte swap, and the
  argument preparation and result mapping of the PDU decryption.
- `Crypto` holds the primitives the core calls but whose code is not part of
  this model: h6, h7, h8, the AES key schedule and TinyCrypt CCM. They are
  arrow-typed parameters, and the model states nothing about what they compute.
- `BigInfo` (bt_bis.h) is the packed 57-byte `pdu_big_info` record as a
  decode/encode pair over raw bytes, with its bit-packed sub-fields.
- `Candidates` (main.c) covers how a worker makes the 16-byte Broadcast Code:
  - the computed format `"%%%02ux\n"` as snprintf and printf read it, with the
    zero- versus space-padding split at L = 5;
  - fgets, strlen and the newline strip for wordlist lines.
- `Search` (main.c) covers:
  - the two worker loops (`bruteforce_range_job`, `bruteforce_slice_job`) as
    methods over the real 16- and 17-byte buffers;
  - the scans they perform, as functions;
  - the partition of the candidate space;
  - the sequential run of the workers and the exit status.
- `Octet` and `Bytes` hold the byte type and the integer facts the rest needs.

Workers run one after the other. The shared `solution_found` flag is an input
of each worker. In the sequential run it holds whether an earlier worker found
the code.

## Model

| member | source | states |
|---|---|---|
| Util.DiversifierIsMod128 | util.c:32 | d = (35·bis + 42) mod 128, so it lies in [0, 127], although 35·bis wraps at 8 bits |
| Util.DiversifierEightBitsSuffice | util.c:29-32 | evaluating `35 * bis + 42` at 16 bits, as C's int does, gives the same seven low bits as the 8-bit wrap |
| Util.DwhBits | util.c:34-45 | the top six bits of dwh[1] all copy bit 0 of d; bit 1 of dwh[1] is d1 and bit 0 is d6; dwh[0] holds d1, d5, d4, d3, d2 in bits 7, 5, 4, 2, 1; bits 6, 3 and 0 of dwh[0] are zero |
| Util.DwhIsDwWord | util.c:37-45 | dwh[0] and dwh[1] are bytes 2 and 3 of the 32-bit word DW: bits 31..26 repeat d0, then d1 d6 d1 0 d5 d4 0 d3 d2 (the layout the expressions at util.c:44-45 give; the comment says only that bits 25 to 17 are set), and the low 17 bits are zero |
| Util.Le32XorHigh | util.c:50-52 | XORing bytes 2 and 3 of a little-endian word is XORing the word with those bytes shifted to bits 16..31 |
| Util.AccessAddressIsSeedXorDw | util.c:23-52 | dst read as a little-endian 32-bit word is SAA XOR DW, with DW as DwhIsDwWord lays it out |
| Util.UtilBisAaLe32 | util.c:21-53 | the first four bytes of dst become the access address of the stream; the bytes after them are untouched |
| Util.AccessAddressKeepsLowBytes | util.c:50-52 | dst[0] and dst[1] are saa[0] and saa[1]; only bytes 2 and 3 change |
| Util.AccessAddressMaskIndependentOfSeed | util.c:50-52 | dst XOR saa depends on the stream number only, not on the seed |
| Util.AccessAddressBis1 | util.c:32-52 | for BIS 1, d = 77, dst[2] = saa[2] ^ 0x06 and dst[3] = saa[3] ^ 0xFD |
| Util.MemXorN | util.c:64-69 | dst[k] = src1[k] ^ src2[k] for every k < len; nothing at index len or beyond is written |
| BtBis.BisIv | bt_bis.c:18-23 | the 8-byte iv is the GIV with its low four bytes XORed with the access address of the stream |
| BtBis.IvIsGivXorAccessAddress | bt_bis.c:18-23 | iv[4..8] = giv[4..8], and iv[k] ^ aa[k] = giv[k] for k < 4, where aa is util_bis_aa_le32(bis_num, saa) |
| BtBis.IvOfBis1 | bt_bis.c:18-23 | for BIS 1 the IV is GIV XOR SAA with bytes 2 and 3 further flipped by 0x06 and 0xFD |
| BtBis.BisNonce | bt_bis.c:26-31 | the 13 nonce bytes are the first four count bytes, count byte 4 with the direction bit ORed in, then the IV |
| BtBis.NonceLayout | bt_bis.c:26-31 | nonce[0..4] = pc[0..4], nonce[5..13] = iv; bits 0-6 of nonce[4] are those of pc[4], and bit 7 is set exactly when pc[4] had it or bit 0 of direction is set |
| BtBis.GskConstantsSpellBig | bt_bis.c:36-57 | the salt is 0x31 0x47 0x49 0x42 and twelve zeros; the key ids are 0x32 0x47 0x49 0x42 and 0x33 0x47 0x49 0x42 ("BIG1", "BIG2", "BIG3" with the octets reversed) |
| BtBis.SysMemSwap | bt_bis.c:65-66 | the 16-byte gsk buffer ends up reversed |
| BtBis.BisGsk | bt_bis.c:35-68 | returns what the h7/h6/h8 chain returns; gsk is untouched when h7 or h6 fails, and otherwise holds what h8 wrote, byte-swapped on success |
| BtBis.GskStopsAfterH7 | bt_bis.c:40-44 | a nonzero h7 status is the result, whatever h6 and h8 would do |
| BtBis.GskStopsAfterH6 | bt_bis.c:46-54 | after a good h7, a nonzero h6 status is the result, whatever h8 would do |
| BtBis.GskResult | bt_bis.c:40-67 | the result is 0 exactly when all three stages return 0; a failing h8's status comes back unchanged, with its raw output in gsk; on success gsk is h8's output reversed |
| BtBis.BisPduDecrypt | bt_bis.c:71-108 | returns the 0/-1 outcome of the decryption; out holds the plaintext bytes CCM wrote (those that fit), and the rest is untouched |
| BtBis.PduDecryptRejectsBadNrf | bt_bis.c:77-79 | an nrf other than 0 or 1 gives -1 before any CCM work, and nothing is written |
| BtBis.PduDecryptResult | bt_bis.c:82-107 | the result is 0 or -1; it is 0 exactly when nrf ≤ 1, tc_ccm_config succeeds for a 13-byte nonce and a 4-byte tag, and the tag verifies |
| BtBis.DecryptArgsLayout | bt_bis.c:94-100 | the AAD is the one byte pdu[0] & 0xC3, with CSSN and CSTF cleared; the output length is pdu[1] - 4 (wrapping below 4); the ciphertext starts at 2 + nrf and spans plen - 2 - nrf bytes |
| BigInfo.Decode | bt_bis.h:6-44 | every array member of the decoded record has its declared length |
| BigInfo.Encode | bt_bis.h:6-44 | the raw memory of a record is 57 bytes |
| BigInfo.LayoutOffsets | bt_bis.h:6-44 | the twelve members tile 57 bytes in declared order without padding; max_pdu is at 11, rfu at 12, seed_access_addr at 13, sdu_packed at 17, giv at 33, gskd at 41 |
| BigInfo.DecodeOffsets | bt_bis.h:30-43 | seed_access_addr is bytes 13..16, giv is bytes 33..40 and gskd is bytes 41..56 of the raw record |
| BigInfo.EncodeDecode | bt_bis.h:6-44 | re-encoding a decoded record gives back the same 57 bytes |
| BigInfo.DecodeEncode | bt_bis.h:6-44 | decoding the raw memory of a record gives back the record |
| BigInfo.UnpackBigOffset | bt_bis.h:7-11 | offs, offs_units, iso_interval and num_bis fit 14, 1, 12 and 5 bits |
| BigInfo.BigOffsetTiles | bt_bis.h:7-11 | 14 + 1 + 12 + 5 = 32: packing the unpacked group gives the word back, and unpacking packed fitting fields gives them back |
| BigInfo.BigOffsetBytes | bt_bis.h:7-12 | offs = b0 \| (b1 & 0x3F) << 8; offs_units is bit 6 of b1; iso_interval is bit 7 of b1, then b2, then bits 0-2 of b3; num_bis = b3 >> 3 |
| BigInfo.UnpackBigSubEvents | bt_bis.h:14-18 | nse, bn, sub_interval and pto fit 5, 3, 20 and 4 bits |
| BigInfo.BigSubEventsTile | bt_bis.h:14-18 | 5 + 3 + 20 + 4 = 32: pack and unpack are inverse |
| BigInfo.UnpackBigSpacing | bt_bis.h:21-23 | spacing and irc fit 20 and 4 bits |
| BigInfo.BigSpacingTiles | bt_bis.h:21-23 | 20 + 4 = 24: pack and unpack are inverse |
| BigInfo.UnpackBigSdu | bt_bis.h:32-34 | sdu_interval and max_sdu fit 20 and 12 bits |
| BigInfo.BigSduTiles | bt_bis.h:32-34 | 20 + 12 = 32: pack and unpack are inverse |
| BigInfo.UnpackBigChannels | bt_bis.h:39 | the channel map and the PHY fit 37 and 3 bits |
| BigInfo.BigChannelsTile | bt_bis.h:39 | 37 + 3 = 40: pack and unpack are inverse |
| BigInfo.UnpackBigPayloadCount | bt_bis.h:40 | the payload count and the framing bit fit 39 and 1 bits |
| BigInfo.BigPayloadCountTiles | bt_bis.h:40 | 39 + 1 = 40: pack and unpack are inverse |
| BigInfo.BigPayloadCountBytes | bt_bis.h:40 | framing is the top bit of the fifth byte; the count is the 40-bit word with that bit cleared |
| Candidates.Snprintf | main.c:61-62 | snprintf stores a prefix of the text of exactly min(length of the text, size - 1) characters |
| Candidates.PadLeft | main.c:61-62 | a printf field is the text itself when it is at least as wide as the width; otherwise it is width bytes, fill first, text last |
| Candidates.Decimal | main.c:61 | `%u` prints at least one character, all of them decimal digits |
| Candidates.DecValueOfDecimal | main.c:61 | reading back the digits `%u` prints gives the number |
| Candidates.DecimalShape | main.c:61 | `%u` has no leading zero except for 0; it prints one digit below 10 and two below 100 |
| Candidates.LeadingZeros | main.c:61-62 | counts exactly the leading '0' bytes of a directive, which printf reads as flags |
| Candidates.ZeroPaddedHexIsFixed | main.c:62 | `%0nx` of a value below 16^n is its n-digit lowercase hex form, leading zeros kept |
| Candidates.HexFixedInjective | main.c:62 | distinct values below 16^n have distinct n-digit hex forms |
| Candidates.BcFormatShape | main.c:60-61 | the five-byte bc_format keeps '%', the two-digit width 2L and 'x', and loses the newline |
| Candidates.BcFormatShort | main.c:60-61 | for L ≤ 4 the format is `%0` + one digit: the zero flag with width 2L |
| Candidates.BcFormatLong | main.c:60-61 | for 5 ≤ L < 50 the format is `%` + two digits: width 2L without the zero flag |
| Candidates.BcFormatConversion | main.c:60-62 | for every L < 50 the format is four bytes ending in 'x'; it carries width 2L, and the zero flag exactly when L ≤ 4 |
| Candidates.ParseZeroFlagged | main.c:61-62 | printf reads `%0dx`, with d from 1 to 9, as the zero flag and width d |
| Candidates.ParseDoubleZero | main.c:61-62 | printf reads `%00x` (L = 0) as the zero flag and no width |
| Candidates.ParseTwoDigitWidth | main.c:61-62 | printf reads `%ddx`, with a two-digit dd, as width dd without a flag |
| Candidates.NumericCandidate | main.c:51-62 | the candidate is always 16 bytes |
| Candidates.NumericTextUntruncated | main.c:61-62 | for byte lengths 1 to 7 the computed format parses as width 2L, with the zero flag up to 4, and the `%x` conversion of the low 32 bits of i is at most 15 characters, so the text snprintf stores is the whole conversion |
| Candidates.NumericTextTruncated | main.c:61-62 | from byte length 8 to 49 the conversion is 2L ≥ 16 characters wide and snprintf stores only its first 15 |
| Candidates.NumericZeroPadded | main.c:51-62 | for 1 ≤ L ≤ 4 and i < 2^(8L), candidate i is i as exactly 2L lowercase hex digits, followed by 16 - 2L zero bytes |
| Candidates.NumericInjective | main.c:51-62 | for 1 ≤ L ≤ 4, distinct numbers of the range give distinct candidates |
| Candidates.NumericSpacePadded | main.c:51-62 | for 5 ≤ L ≤ 7, the candidate is the hex digits of i's low 32 bits right-aligned with spaces in 2L columns, then zeros; it starts with at least 2L - 8 spaces |
| Candidates.NumericWrapCollision | main.c:62 | for L ≥ 5, i and i + 2^32 give the same candidate |
| Candidates.FgetsRead | main.c:130 | fgets reads at most room bytes, all within the file, and at least one byte when there is one to read |
| Candidates.FgetsReadLine | main.c:130 | the chunk is the file's next bytes; only its last byte can be a newline; it is shorter than room only at a newline or at the end of the file |
| Candidates.Strlen | main.c:140 | strlen is the index of the first NUL, or the whole length when there is none |
| Candidates.CleanChunkLength | main.c:127-140 | after fgets into a cleared buffer, the string is the whole chunk when the chunk has no NUL |
| Candidates.LineWithNewline | main.c:137-143 | a NUL-free chunk that ends in a newline loses exactly that newline; a carriage return before it stays; the rest is zeros to 16 bytes |
| Candidates.LineWithoutNewline | main.c:137-143 | a NUL-free chunk without a final newline is the candidate as it is, zero-padded to 16 bytes |
| Candidates.LongLineSplits | main.c:130 | a line with more than 16 bytes before its newline gives its first 16 bytes as one chunk, and the next fgets, from the offset after them, starts with the line's 17th byte |
| Candidates.EmbeddedNulKeepsNewline | main.c:137-143 | a NUL inside a line hides its newline from strlen, so the newline stays in the candidate |
| Candidates.StaleBytesSurvive | main.c:137-178 | bytes behind the new chunk's NUL are whatever the buffer held before; they are stale after a GSK failure skipped the memset |
| Search.RangeJob | main.c:42-99 | the numeric worker ends as RangeScan describes for its chunk |
| Search.RangeLoop | main.c:52-96 | over a cleared 16-byte buffer, the loop ends as RangeScan describes, for any verdict and candidate functions that agree with the numeric candidates at every number |
| Search.RangeStep | main.c:52-95 | one pass does what RangeStepTaken states: at a multiple of 1000000 with the flag set it stops, a GSK failure ends the process, an accepted candidate ends the job with Found, and otherwise the pass goes on with the buffer cleared again |
| Search.RangeScanByStep | main.c:52-95 | a pass that does what RangeStepTaken says either ends the scan with its result or leaves the rest of the scan equal to the scan from i + 1 |
| Search.RangeScanPast | main.c:52 | past the end of the chunk the scan is exhausted |
| Search.TryNumeric | main.c:60-75 | the buffer holds candidate i, and the verdict is what trying it leads to |
| Search.FormatInto | main.c:60-62 | the cleared 16-byte buffer receives the snprintf output, and zeros behind it |
| Search.SnprintfInto | main.c:62 | the buffer receives the truncated text, then a NUL; the bytes behind are untouched |
| Search.ClearPrefix | main.c:94 | memset clears the first n bytes and leaves the rest |
| Search.TryCode | main.c:64-77 | the verdict is a GSK failure when bt_bis_gsk fails; otherwise it is accepted exactly when bt_bis_pdu_decrypt with nrf 0 returns 0 |
| Search.RangeScanResult | main.c:52-90 | the scan ends at the first candidate that stops it: Found at the first one that decrypts, Stopped at the first multiple of 1000000 with the flag set, ProcessExit at the first GSK failure; it is Exhausted exactly when every candidate of the chunk passes |
| Search.RangeScanReadsFlagAtMillions | main.c:53-57 | the flag is read only when i is a multiple of 1000000: its value elsewhere changes nothing |
| Search.FgetsForward | main.c:130 | every chunk fgets reads ends within the wordlist |
| Search.SliceJob | main.c:105-183 | the wordlist worker's end and its processed_lines are what SliceScan describes for its chunk, from a zeroed 17-byte buffer |
| Search.SliceStep | main.c:130-178 | one pass does what StepTaken states: no chunk or the flag ends the scan, an accepted code ends it with Found, and otherwise the pass moves to the next chunk |
| Search.LineStep | main.c:137-178 | after the strip and the try, a decrypting code is Found; a failed decryption counts the line and clears 16 bytes; a GSK failure does neither |
| Search.TryLine | main.c:137-154 | the buffer is stripped of its trailing newline, and the verdict is what trying its first 16 bytes leads to |
| Search.FgetsInto | main.c:130 | fgets stores the chunk and a NUL, and leaves the bytes behind them |
| Search.StripInPlace | main.c:140-143 | the buffer is changed only by replacing a newline just before the first NUL with NUL |
| Search.LineLoadCandidate | main.c:137-147 | the code handed to bt_bis_gsk is the line candidate of the chunk just read |
| Search.SliceScanByStep | main.c:130-178 | a pass that does what StepTaken says takes the scan one chunk further, and the next offset stays within the wordlist |
| Search.ChunkStartsBounds | main.c:130 | every chunk is read at an offset before end where fgets gets something, starting at the first offset; reading stops only at end or later, or where fgets gets nothing |
| Search.ChunkStartsChain | main.c:130 | each chunk starts where the previous one stopped |
| Search.ChunkStartsStop | main.c:130 | after the last chunk the offset is at or past end, or the file is exhausted: the worker reads up to the first chunk boundary at or past end and no further |
| Search.LongLineChunks | main.c:130 | for a line with more than 16 bytes before its newline read from pos < end, the first 16 bytes are a chunk, and the rest is read by this worker exactly when pos + 16 < end; otherwise the worker stops in the middle of the line |
| Search.SliceScanResult | main.c:130-170 | a worker that stops or succeeds does so at a chunk it reads; the code it hands over passes the check, and the flag was clear there |
| Search.SliceScanFirstAccepted | main.c:130-170 | the code a worker hands over is the last of the codes it tried (Tried, in reading order, the buffer passed on after each failure) and the first of them to pass the check; a worker that stops or runs out of chunks tried no code that passes |
| Search.SliceScanTriedAll | main.c:130-170 | a worker that runs out of chunks tried one code at every chunk it read |
| Search.SliceScanNeverExits | main.c:145-151 | a wordlist worker never ends the process: a GSK failure skips the line |
| Search.SliceScanExhaustedFlags | main.c:130-135 | a worker that runs out of chunks saw the flag clear before every one of them |
| Search.SliceScanLines | main.c:128-175 | processed_lines never goes down, and grows by at most one per chunk read |
| Search.SliceScanSteadyFlag | main.c:131-135 | a flag that stays clear never stops a worker; one that is set stops it at its first chunk, if it reads one |
| Search.PlanPartitions | main.c:296-356 | the thread setup loop and the remainder thread produce exactly the chunks Partitions lists |
| Search.PartitionsTile | main.c:304-356 | there are num_threads chunks [i·chunk, (i+1)·chunk - 1], plus [num_threads·chunk, loop_end] exactly when a remainder is left; together they tile 0 to loop_end |
| Search.TilesCover | main.c:318-356 | every candidate from 0 to loop_end is in exactly one chunk |
| Search.TilesOrdered | main.c:318-356 | each chunk is nonempty and lies in range, and later chunks start after earlier ones end |
| Search.NumericRange | main.c:296-304 | numeric mode searches 2^(8L) candidates from 0; L = 2 gives 0 to 0xFFFF |
| Search.TargetNonce | main.c:288-294 | the nonce is the low four bytes of payload_cnt, then its fifth byte with the direction bit set, then the IV of BIS 1; the five bytes are payload_cnt mod 2^40, little-endian |
| Search.Crack | main.c:288-394 | the exit status is that of the workers run over the partition of the mode's range, using the IV of BIS 1 and the nonce with direction 1 |
| Search.RunAll | main.c:383-394 | the workers run in turn, each seeing whether an earlier one succeeded; the exit status follows the flag, and a GSK failure in a numeric worker gives EXIT_FAILURE |
| Search.RunJob | main.c:332-348 | a numeric mode runs the range worker on the chunk, and a wordlist mode the slice worker |
| Search.NumericRunExact | main.c:296-394 | numeric workers over a tiling, with no GSK failure, exit with EXIT_SUCCESS exactly when the flag was set or some candidate decrypts |
| Search.NumericSearchExact | main.c:296-394 | when no candidate makes bt_bis_gsk fail, numeric mode exits with EXIT_SUCCESS exactly when some number below 2^(8L) is a Broadcast Code that decrypts the PDU, and with EXIT_FAILURE otherwise |
| Search.JobFoundAccepted | main.c:74-90 | a worker's Found result carries a Broadcast Code under which the PDU decrypts |
| Search.RunWorkersSound | main.c:383-394 | EXIT_SUCCESS only when the flag was already set or some worker found a code the check accepts |
| Search.SearchSound | main.c:383-394 | in both modes the search exits with EXIT_SUCCESS only when some worker found a code that decrypts the PDU |
| Search.WordlistBoundaryGap | main.c:117-130 | for the wordlist "a\nbc\n" split between two workers, the first reads "a\n" and the second starts mid-line and reads "c\n"; the line "bc" is never tried |

## Left out

- Command-line parsing and validation with popt (main.c:196-229) are left out.
  The model takes the mode, the byte length and the thread count as
  parameters. The checks main makes on them appear as the preconditions
  `ValidMode` and `PartitionPlan`.
- File I/O is left out: opening, seeking, sizing and reading the PDU, BIGInfo
  and wordlist files. The files are byte sequences. A BIGInfo file shorter than
  57 bytes, which fread would leave partly unread, is excluded by precondition.
- The failure paths of malloc, fopen and pthread_create are left out.
- Threads, pthread_join and the atomic `solution_found` are left out. Workers
  run sequentially, and the flag is an input of each worker (constant over one
  worker in the sequential run). A flag set by a concurrent worker halfway
  through a scan is covered only by the lemmas over an arbitrary `flag`.
- Progress printing (with its `double` percentages), `sleep(1)`, and every
  hexprint and print helper in util.c are left out. `processed_lines` is
  counted but its periodic print is not modelled.
- AES-128, TinyCrypt CCM, and h6, h7 and h8 are not part of this model. They
  are arrow-typed parameters (`Crypto.Toolbox`, `Crypto.Ccm`) about which
  the model states nothing.
- `sys_mem_swap` is modelled as sequence reversal, because byteorder.h is not
  part of this model.
- bt_addr.h, util.h and the `test_*` prototypes of bt_bis.h carry no logic to
  model.
- Numeric byte lengths are limited to 1 to 7. For L ≥ 8, `1 << bc_byte_length*8`
  is undefined in C.
- Candidates.AsUnsigned: the uint64_t `i` passed to `%x` is read as its low 32
  bits, the x86-64 behaviour of this undefined mismatch.
- Candidates.StripNewline: when strlen is 0, the C reads `buf[-1]`. The model
  leaves the buffer unchanged in that case.
- Search.PartitionPlan: main does not guard chunk_size ≥ 1 (otherwise `end`
  wraps below zero), and total_threads must fit its uint8_t. Both are required
  rather than modelled as wrap-around.
- BtBis.PduDecrypt, BtBis.DecryptArgsOf, BtBis.BisPduDecrypt, Search.TargetOf and
  Search.Crack (and the lemmas about them) require a PDU of at least 2 bytes.
  main accepts a PDU file of any size, but bt_bis.c:98-100 reads pdu[0] and
  pdu[1] unconditionally, so a 0- or 1-byte PDU would be read out of bounds.
- Search.PduLength: `pdu_len` reaches the uint8_t `plen` truncated modulo 256.
  PDUs longer than 255 bytes are not otherwise treated.
- BtBis.BisPduDecrypt: only the plaintext bytes that fit in `out` are written.
  A CCM write past the end of the buffer is not modelled.
- Search.NumericSearchExact: it requires that no candidate makes bt_bis_gsk
  fail, because such a failure ends the process at that candidate whatever
  lies behind it.
- Search.SearchSound: for wordlist mode only soundness is stated, not
  completeness. A line that straddles a chunk boundary is never tried, as
  Search.WordlistBoundaryGap shows.
