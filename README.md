# cpptotp core in Dafny

This project models the cryptographic core of cpptotp. That core is a small
C++ library that computes one-time passwords for two-factor authentication.
It has four layers:

- `sha1` computes SHA-1 (FIPS 180-4) and `hmacSha1` computes HMAC-SHA-1
  (RFC 2104), both in `src/libcppotp/sha1.cpp`.
- `hotp` and `totp` compute HOTP (RFC 4226) and TOTP (RFC 6238) codes, in
  `src/libcppotp/otp.cpp`.
- `src/libcppotp/bytes.cpp` holds the byte-string helpers: erasure of a
  byte string, lower-case hexadecimal text, big-endian serialisation of
  32- and 64-bit integers, and the Base32 codec of RFC 4648 section 6.
- `src/bytes.cpp` is an older copy of the byte-string helpers. Its
  `clearByteString`, `swizzleByteStrings`, `nibbleToLCHex`, `toHexString`,
  `u32beToByteString` and `u64beToByteString` have the same text as in
  `src/libcppotp/bytes.cpp`, so one model covers both. A row of the table
  below whose member models only these functions cites their `src/bytes.cpp`
  lines. A row that also involves `hexToNibble`, `fromHexStringSkipUnknown`
  or the Base32 codec cites `src/libcppotp/bytes.cpp`, the only file that
  has them.

Each module is one source file:

- `bytes.dfy` (module `Bytes`) models the byte helpers.
- `base32.dfy` (module `Base32`) models the Base32 codec.
- `sha1.dfy` (module `Sha1`) models SHA-1 and HMAC-SHA-1.
- `otp.dfy` (module `Otp`) models HOTP and TOTP.
- `wrappers.dfy` holds the `Result` type. It stands for the C++ exceptions.

The source's loops become methods with loop invariants. Each method is
proved equal to a specification function. The lemmas then prove about those
functions what the standards promise: hex and Base32 round trips, the
padding layout of SHA-1, the early-word recurrence of the SHA-1 schedule
next to the source's shortcut for later words, and the HMAC key handling.
`ByteString` is a class because `clearByteString` and `swizzleByteStrings`
overwrite a string in place.

The C++ integer types are modelled as follows:

- `uint8_t` is `bv8`.
- `uint32_t` is `bv32`, or `int` reduced modulo 2^32 where the source
  multiplies.
- `uint64_t` is `bv64`, or `int` reduced modulo 2^64 where the source
  subtracts or multiplies.

## Model

| member | source | states |
|---|---|---|
| `Bytes.ByteString.constructor` | src/bytes.h:23 | A byte string holds exactly the bytes it was made from. |
| `Bytes.ClearByteString` | src/bytes.cpp:17-25 | Every byte is overwritten with zero and the length is kept. |
| `Bytes.SwizzleByteStrings` | src/bytes.cpp:27-32 | Target ends with the old contents of source, and source is erased to zeros of its old length. When both are the same string, it ends up erased. |
| `Bytes.HexToNibble` | src/libcppotp/bytes.cpp:57-76 | A hex digit of either case has a value below 16. |
| `Bytes.NibbleToLCHex` | src/bytes.cpp:34-49 | A value below 16 maps to a lower-case hex digit. |
| `Bytes.NibbleDigitReadsBack` | src/libcppotp/bytes.cpp:40-76 | Reading back the digit written for a nibble gives that nibble. |
| `Bytes.UpperDigitReadsAsLower` | src/libcppotp/bytes.cpp:57-76 | An upper-case digit `A`-`F` reads as 10 to 15, the same value as its lower-case form. |
| `Bytes.LowerDigitReadsBack` | src/libcppotp/bytes.cpp:40-76 | Writing the value of a lower-case digit gives that digit. |
| `Bytes.Hex` | src/bytes.cpp:51-62 | The hex text is twice as long as the bytes. |
| `Bytes.HexAt` | src/bytes.cpp:51-62 | Characters 2i and 2i+1 are the two digits of byte i. |
| `Bytes.HexDigitsRead` | src/libcppotp/bytes.cpp:57-89 | Every character is a lower-case digit, and they read back as the high and low nibble of each byte. |
| `Bytes.HexAppend` | src/bytes.cpp:55-59 | Appending a byte appends its two digits. |
| `Bytes.ToHexString` | src/bytes.cpp:51-62 | The loop returns the hex text of the whole byte string. |
| `Bytes.HexDigitsOf` | src/libcppotp/bytes.cpp:93-105 | The filtered text is no longer than the input and holds only hex digits. |
| `Bytes.HexDigitsOfDigits` | src/libcppotp/bytes.cpp:93-105 | Filtering text made only of hex digits changes nothing. |
| `Bytes.HexPairsToBytes` | src/libcppotp/bytes.cpp:112-119 | An even number of digits gives half as many bytes. |
| `Bytes.HexPairsRead` | src/libcppotp/bytes.cpp:112-119 | Byte i has digit 2i as its high nibble and digit 2i+1 as its low nibble. |
| `Bytes.CollectHexDigits` | src/libcppotp/bytes.cpp:93-105 | The first loop keeps exactly the hex digits, in order. |
| `Bytes.CombineHexPairs` | src/libcppotp/bytes.cpp:112-119 | The second loop combines the digits two by two. |
| `Bytes.FromHexStringSkipUnknown` | src/libcppotp/bytes.cpp:91-121 | The result equals `HexDecode`: an odd count of digits is an error, otherwise the digits are combined pairwise. |
| `Bytes.HexRoundTrip` | src/libcppotp/bytes.cpp:78-121 | Decoding the hex text of any byte string succeeds and gives back those bytes. |
| `Bytes.NibblesDetermineByte` | src/libcppotp/bytes.cpp:112-119 | A byte is determined by its two nibbles. |
| `Bytes.U32beToByteString` | src/bytes.cpp:64-72 | Four bytes, which read back big-endian as the number. |
| `Bytes.BeWordRoundTrip` | src/bytes.cpp:64-72 | Serialising the big-endian word of four bytes gives back those bytes. |
| `Bytes.U64beToByteString` | src/bytes.cpp:74-79 | Eight bytes: the high word's four bytes, then the low word's, which read back as the number. |
| `Base32.B32DigitValue` | src/libcppotp/bytes.cpp:168-175 | A character of `A`-`Z` or `2`-`7` has a value below 32. |
| `Base32.B32Digit` | src/libcppotp/bytes.cpp:259-270 | A value below 32 maps to a character of the alphabet. |
| `Base32.B32DigitValueOfDigit` | src/libcppotp/bytes.cpp:168-175 | Decoding the character written for a value gives that value. |
| `Base32.B32DigitOfValue` | src/libcppotp/bytes.cpp:259-270 | Encoding the value of a character gives that character. |
| `Base32.DataCharCount` | src/libcppotp/bytes.cpp:228-252 | `putchars` for n bytes is ceil(8n/5): just enough 5-bit characters to hold 8n bits. |
| `Base32.EncodeChunk` | src/libcppotp/bytes.cpp:220-281 | A chunk is always eight characters long. |
| `Base32.PackChunk` | src/libcppotp/bytes.cpp:227-252 | The shifts pack the bytes into the top of a 40-bit group, and `putchars` is `DataCharCount`. |
| `Base32.EmitQuintets` | src/libcppotp/bytes.cpp:254-271 | The emit loop writes the first `putchars` 5-bit groups as characters. |
| `Base32.BytesToB32Chunk` | src/libcppotp/bytes.cpp:220-281 | Fewer than 1 or more than 5 bytes is an error. Otherwise the result is the data characters padded with `=` to eight. |
| `Base32.FirstPad` | src/libcppotp/bytes.cpp:159-167 | The position of the first `=`: no `=` before it, and a `=` there when it is inside the text. |
| `Base32.FirstNonDigit` | src/libcppotp/bytes.cpp:168-178 | The end of the leading run of alphabet characters. |
| `Base32.BytesForPadCount` | src/libcppotp/bytes.cpp:185-204 | A pad count the switch accepts gives 1 to 5 bytes, and it is the count the encoder would pad that many bytes with. Any other count is the error naming it. |
| `Base32.PadCountsMatchEncoder` | src/libcppotp/bytes.cpp:185-204 | The decoder's switch accepts pad count p with n bytes exactly when the encoder pads n bytes with p `=`. |
| `Base32.ReadChunk` | src/libcppotp/bytes.cpp:154-183 | The character loop equals `ScanChunk`: the packed bits and pad count, or the first error. |
| `Base32.ReadChar` | src/libcppotp/bytes.cpp:156-182 | One step of the loop fails exactly as `ScanChunk` does, or extends the scanned prefix by one character. |
| `Base32.ScanChunkOutcome` | src/libcppotp/bytes.cpp:154-183 | An accepted chunk holds only alphabet characters and `=`, with at most 8 `=`. A rejected one either has data after padding or holds the reported character, which is neither `=` nor in the alphabet. |
| `Base32.ShiftIntoGroup` | src/libcppotp/bytes.cpp:181-182 | Or-ing a character's bits in at `(7-i)*5` extends the packed group by that character. |
| `Base32.ScannedPrefixShape` | src/libcppotp/bytes.cpp:159-167 | A prefix the loop accepted is alphabet characters followed by `=`. |
| `Base32.ScanDataAfterPad` | src/libcppotp/bytes.cpp:164-167 | A data character after a `=` is the error "padding followed by non-padding". |
| `Base32.ScanBadCharacter` | src/libcppotp/bytes.cpp:176-179 | The first character outside the alphabet and `=` is reported. |
| `Base32.ScanWellFormed` | src/libcppotp/bytes.cpp:154-183 | Characters followed by `=` scan successfully, with the pad count equal to the number of `=`. |
| `Base32.ScanSuccessShape` | src/libcppotp/bytes.cpp:154-183 | The scan succeeds if and only if the chunk is alphabet characters followed only by `=`. |
| `Base32.DecodeChunk` | src/libcppotp/bytes.cpp:140-213 | A chunk that decodes is 8 characters long and gives 1 to 5 bytes. Chunk decoding never reports a whole-string length error. |
| `Base32.DecodeChunkChars` | src/libcppotp/bytes.cpp:154-183 | A chunk that decodes holds only alphabet characters and `=`. |
| `Base32.B32ChunkToBytes` | src/libcppotp/bytes.cpp:140-213 | The result equals `DecodeChunk`: the length check, the scan, the pad-count switch and the byte extraction. |
| `Base32.DecodeChunkAccepts` | src/libcppotp/bytes.cpp:140-213 | A chunk decodes if and only if it uses only the alphabet and `=`, no data follows a `=`, and the pad count is 0, 1, 3, 4 or 6. It then yields the matching number of bytes. |
| `Base32.ChunkRoundTrip` | src/libcppotp/bytes.cpp:140-281 | Decoding the chunk encoded from 1 to 5 bytes gives back those bytes. |
| `Base32.DecodeChunks` | src/libcppotp/bytes.cpp:292-297 | Whole chunks that all decode give between 1 and 5 bytes per chunk. |
| `Base32.ChunkFails` | src/libcppotp/bytes.cpp:294-296 | A chunk that fails ends the decoding with its error, whatever was decoded before. |
| `Base32.ChunkDecodes` | src/libcppotp/bytes.cpp:294-296 | The bytes of a chunk that decodes are appended to those decoded so far. |
| `Base32.Base32Decode` | src/libcppotp/bytes.cpp:283-300 | Text that decodes has a length that is a multiple of 8, and between 1 and 5 bytes per chunk. |
| `Base32.FromBase32` | src/libcppotp/bytes.cpp:283-300 | The result equals `Base32Decode`: a length not a multiple of 8 is an error, otherwise the chunks decode in order. |
| `Base32.PrependAssociates` | src/libcppotp/bytes.cpp:292-297 | Appending the bytes of chunk after chunk does not depend on grouping. |
| `Base32.PadToChunk` | src/libcppotp/bytes.cpp:306-309 | The number of `=` added is below 8 and makes the length a multiple of 8. |
| `Base32.Base32DecodeUnpadded` | src/libcppotp/bytes.cpp:302-312 | Unpadded decoding never fails for the length, because the text is first filled up to whole chunks. |
| `Base32.FromUnpaddedBase32` | src/libcppotp/bytes.cpp:302-312 | The result equals decoding the text filled up with `=` to whole chunks. |
| `Base32.UnpaddedOfWholeChunks` | src/libcppotp/bytes.cpp:302-312 | On text of whole chunks, unpadded decoding is plain decoding. |
| `Base32.Base32Encode` | src/libcppotp/bytes.cpp:314-338 | The text is made of whole chunks. |
| `Base32.Base32EncodeLength` | src/libcppotp/bytes.cpp:314-338 | The text of n bytes has 8 * ceil(n/5) characters. |
| `Base32.ToBase32` | src/libcppotp/bytes.cpp:314-338 | The loop over whole groups of five plus the remainder equals `Base32Encode`. |
| `Base32.EncodeFront` | src/libcppotp/bytes.cpp:319-325 | The first five bytes become the first chunk. |
| `Base32.Base32RoundTrip` | src/libcppotp/bytes.cpp:283-338 | Decoding the Base32 text of any byte string succeeds and gives back those bytes. |
| `Base32.Base32EncodeChars` | src/libcppotp/bytes.cpp:254-278 | Encoded text uses only the alphabet and `=`. |
| `Sha1.Lrot32` | src/libcppotp/sha1.cpp:19-22 | The two shifts rotate left by each count the hash uses (1, 2, 5, 30). |
| `Sha1.ChIsFipsCh` | src/libcppotp/sha1.cpp:96-100 | The or-form of rounds 0-19 is FIPS 180-4's Ch. |
| `Sha1.MajIsFipsMaj` | src/libcppotp/sha1.cpp:106-110 | The or-form of rounds 40-59 is FIPS 180-4's Maj. |
| `Sha1.Schedule` | src/libcppotp/sha1.cpp:61-82 | 80 words, the first 16 being the block's words. |
| `Sha1.ExpandWord` | src/libcppotp/sha1.cpp:73-77 | Every expanded word follows the standard recurrence on the words before it. |
| `Sha1.ScheduleWord` | src/libcppotp/sha1.cpp:73-77 | Word t is rotl1 of w[t-3] ^ w[t-8] ^ w[t-14] ^ w[t-16] (FIPS 180-4 section 6.1.2). |
| `Sha1.ScheduleFarBack` | src/libcppotp/sha1.cpp:78-82 | From word 32 on, the source's shortcut, rotl2 of w[t-6] ^ w[t-16] ^ w[t-28] ^ w[t-32], equals the standard recurrence. |
| `Sha1.BlockWords` | src/libcppotp/sha1.cpp:62-70 | A 64-byte block gives 16 words. |
| `Sha1.BlockWord` | src/libcppotp/sha1.cpp:62-70 | Word t of the schedule is bytes 4t..4t+3 of the block, read big-endian. |
| `Sha1.MessageSchedule` | src/libcppotp/sha1.cpp:58-82 | The three loops fill a fresh array of 80 words with the schedule of the block. |
| `Sha1.RoundFunction` | src/libcppotp/sha1.cpp:94-119 | Picks f and k of round j as FIPS 180-4 section 4.1.1 and 4.2.1 define them. |
| `Sha1.RoundStep` | src/libcppotp/sha1.cpp:121-126 | The source's update of a..e is one round of the specification. |
| `Sha1.RunRounds` | src/libcppotp/sha1.cpp:84-127 | The 80 rounds yield the state `Rounds` defines. |
| `Sha1.HashBlocksAppend` | src/libcppotp/sha1.cpp:52-135 | The block loop over a + b is the loop over b started from the hash value after a. |
| `Sha1.Digest` | src/libcppotp/sha1.cpp:137-149 | The digest is 20 bytes. |
| `Sha1.ZeroPadCount` | src/libcppotp/sha1.cpp:34-38 | The fewest zero bytes, below 64, that make the length 56 modulo 64. |
| `Sha1.PadMessage` | src/libcppotp/sha1.cpp:26-43 | The padded message is whole 64-byte blocks, 9 to 72 bytes longer than the message. |
| `Sha1.PadMessageParts` | src/libcppotp/sha1.cpp:34-41 | The padded message is the message, 0x80, zero bytes, then the 64-bit big-endian bit length. |
| `Sha1.AppendPadding` | src/libcppotp/sha1.cpp:28-43 | The padding loop produces exactly `PadMessage`. |
| `Sha1.ZeroPadBound` | src/libcppotp/sha1.cpp:35-38 | The padding loop stops at the first length that is 56 modulo 64. |
| `Sha1.Sha1Hash` | src/libcppotp/sha1.cpp:24-150 | A SHA-1 digest is 20 bytes. |
| `Sha1.Sha1` | src/libcppotp/sha1.cpp:24-150 | The method computes `Sha1Hash`: pad, hash the blocks from the initial values, serialise. |
| `Sha1.HmacKey` | src/libcppotp/sha1.cpp:156-169 | The key length is the block size. Exception: a key longer than a block below 20 bytes becomes a 20-byte hash. |
| `Sha1.HmacKeyShort` | src/libcppotp/sha1.cpp:165-169 | A short key is kept and followed by zero bytes. |
| `Sha1.PaddedKey` | src/libcppotp/sha1.cpp:165-169 | A short key becomes the key followed by zeros up to the block size. |
| `Sha1.HmacLongKey` | src/libcppotp/sha1.cpp:159-164 | HMAC with a key longer than the block is HMAC with the key's hash. |
| `Sha1.HmacZeroPadding` | src/libcppotp/sha1.cpp:165-169 | Zero bytes appended to a short key do not change the MAC. |
| `Sha1.XorPad` | src/libcppotp/sha1.cpp:177-182 | Every key byte is xor-ed with the pad byte. |
| `Sha1.HmacSha1Spec` | src/libcppotp/sha1.cpp:154-193 | An HMAC-SHA-1 value is 20 bytes. |
| `Sha1.RealKey` | src/libcppotp/sha1.cpp:156-169 | The key preparation computes `HmacKey`. |
| `Sha1.PadKeys` | src/libcppotp/sha1.cpp:172-182 | The loop yields the key xor 0x36 and the key xor 0x5c. |
| `Sha1.HmacSha1` | src/libcppotp/sha1.cpp:154-193 | The method computes H(K ^ opad, H(K ^ ipad, msg)) of RFC 2104. |
| `Otp.HmacSha1_64` | src/libcppotp/otp.cpp:21-24 | HMAC-SHA-1 with a 64-byte block, which is 20 bytes. |
| `Otp.Digits10` | src/libcppotp/otp.cpp:35-39 | The uint32 `digits10` stays below 2^32. |
| `Otp.Digits10Wraps` | src/libcppotp/otp.cpp:35-39 | `digits10` is 10^n reduced modulo 2^32. |
| `Otp.Digits10Exact` | src/libcppotp/otp.cpp:35-39 | Up to nine digits, `digits10` is exactly 10^n. |
| `Otp.Digits10Vanishes` | src/libcppotp/otp.cpp:35-39 | `digits10` is zero if and only if the digit count is 32 or more. The final `%` is then undefined. |
| `Otp.PowerOfTen` | src/libcppotp/otp.cpp:35-39 | The loop computes `Digits10`. |
| `Otp.DynamicTruncation` | src/libcppotp/otp.cpp:42-56 | The truncated value is below 2^31. |
| `Otp.TruncationMasksFirstByte` | src/libcppotp/otp.cpp:49-58 | Masking the word equals masking the first byte with 0x7f, as RFC 4226 section 5.4 writes it. |
| `Otp.FourWordTruncates` | src/libcppotp/otp.cpp:42-58 | The four bytes `substr` takes, read as a masked word, are the truncated value. |
| `Otp.ClearTopBit` | src/libcppotp/otp.cpp:56-58 | Masking with 0x7fffffff leaves a value below 2^31 which, with the top bit put back, is the word. |
| `Otp.Truncate` | src/libcppotp/otp.cpp:56-58 | The code is below the modulus. |
| `Otp.TruncateDigest` | src/libcppotp/otp.cpp:41-58 | The tail of `hotp` computes the truncation of the HMAC reduced modulo `digits10`. |
| `Otp.HotpValue` | src/libcppotp/otp.cpp:27-59 | RFC 4226's HOTP value has at most the requested number of digits. |
| `Otp.HotpAsWritten` | src/libcppotp/otp.cpp:27-59 | The library's value is below its wrapped `digits10`. |
| `Otp.HotpFollowsRfc` | src/libcppotp/otp.cpp:35-58 | Up to nine digits, the library's value is RFC 4226's HOTP value. |
| `Otp.Hotp` | src/libcppotp/otp.cpp:27-59 | `hotp` returns `HotpAsWritten`. Up to nine digits that is RFC 4226's HOTP value. |
| `Otp.TenDigitsWrap` | src/libcppotp/otp.cpp:35-39 | With ten digits, `digits10` is 1410065408 rather than 10^10. |
| `Otp.HotpTenDigits` | src/libcppotp/otp.cpp:35-58 | With ten digits the library reduces by 1410065408, where RFC 4226 reduces by 10^10. |
| `Otp.TenDigitCodeDiffers` | src/libcppotp/otp.cpp:49-58 | A digest truncating to 2147483647 gives 737418239 with the library's modulus and 2147483647 with RFC 4226's. |
| `Otp.TimeCounter` | src/libcppotp/otp.cpp:63 | The counter is a 64-bit value. |
| `Otp.TimeCounterFollowsRfc` | src/libcppotp/otp.cpp:63 | From the start time on, the counter is floor((now - T0) / X) of RFC 6238 section 4.2. |
| `Otp.TimeCounterWraps` | src/libcppotp/otp.cpp:63 | Before the start time, the difference wraps around 2^64. |
| `Otp.TimeCounterMonotone` | src/libcppotp/otp.cpp:63 | The counter never decreases as time moves forward from the start. |
| `Otp.Totp` | src/libcppotp/otp.cpp:61-65 | `totp` returns the HOTP value of the time counter. Up to nine digits that is RFC 6238's TOTP value. |
| `Otp.HotpVectorCounter0` | src/libcppotp/otp.cpp:81 | RFC 4226 Appendix D's HMAC for counter 0 truncates to 755224. |
| `Otp.HotpVectorCounter1` | src/libcppotp/otp.cpp:82 | Counter 1 truncates to 287082. |
| `Otp.HotpVectorCounter2` | src/libcppotp/otp.cpp:83 | Counter 2 truncates to 359152. |
| `Otp.HotpVectorCounter3` | src/libcppotp/otp.cpp:84 | Counter 3 truncates to 969429. |
| `Otp.HotpVectorCounter4` | src/libcppotp/otp.cpp:85 | Counter 4 truncates to 338314. |
| `Otp.HotpVectorCounter5` | src/libcppotp/otp.cpp:86 | Counter 5 truncates to 254676. |
| `Otp.HotpVectorCounter6` | src/libcppotp/otp.cpp:87 | Counter 6 truncates to 287922. |
| `Otp.HotpVectorCounter7` | src/libcppotp/otp.cpp:88 | Counter 7 truncates to 162583. |
| `Otp.HotpVectorCounter8` | src/libcppotp/otp.cpp:89 | Counter 8 truncates to 399871. |
| `Otp.HotpVectorCounter9` | src/libcppotp/otp.cpp:90 | Counter 9 truncates to 520489. |
| `Otp.TotpCounterVectors` | src/libcppotp/otp.cpp:91-96 | The six times of RFC 6238 Appendix B give the listed counters T, with T0 = 0 and X = 30. |

## Left out

- `ByteStringDestructor` is not part of this model. It is the RAII guard that clears a string when it leaves scope. So is the `volatile` qualifier of `clearByteString`, which keeps the compiler from dropping the erasure. Dafny has neither destructors nor an optimiser to defend against. Only the effect of the explicit `clearByteString` and `swizzleByteStrings` calls is modelled.
- The test `main` functions are left out: console output, `std::cout`, and the `time(NULL)` clock. `Totp` takes the current time as a parameter.
- `src/gauche.cpp` (the command-line tool) is not part of this model.
- The known-answer values of SHA-1 and HMAC-SHA-1 in the test `main` functions are not proved: SHA-1 of the test strings and HMAC-SHA-1 of "key"/"The quick brown fox…". Evaluating SHA-1 on concrete input inside the verifier is beyond it, since every round unfolds into bit-vector arithmetic.
- `Otp.HotpVectorCounter0`: checks the truncation stage only. It proves that RFC 4226 Appendix D's HMAC value for counter 0 truncates to 755224, not that `hotp` of the key "12345678901234567890" gives 755224 (otp.cpp:81). Computing HMAC-SHA-1 of the key inside the verifier is beyond it.
- `Otp.HotpVectorCounter1`: checks the truncation stage only. It proves that RFC 4226 Appendix D's HMAC value for counter 1 truncates to 287082, not that `hotp` of the key "12345678901234567890" gives 287082 (otp.cpp:82). Computing HMAC-SHA-1 of the key inside the verifier is beyond it.
- `Otp.HotpVectorCounter2`: checks the truncation stage only. It proves that RFC 4226 Appendix D's HMAC value for counter 2 truncates to 359152, not that `hotp` of the key "12345678901234567890" gives 359152 (otp.cpp:83). Computing HMAC-SHA-1 of the key inside the verifier is beyond it.
- `Otp.HotpVectorCounter3`: checks the truncation stage only. It proves that RFC 4226 Appendix D's HMAC value for counter 3 truncates to 969429, not that `hotp` of the key "12345678901234567890" gives 969429 (otp.cpp:84). Computing HMAC-SHA-1 of the key inside the verifier is beyond it.
- `Otp.HotpVectorCounter4`: checks the truncation stage only. It proves that RFC 4226 Appendix D's HMAC value for counter 4 truncates to 338314, not that `hotp` of the key "12345678901234567890" gives 338314 (otp.cpp:85). Computing HMAC-SHA-1 of the key inside the verifier is beyond it.
- `Otp.HotpVectorCounter5`: checks the truncation stage only. It proves that RFC 4226 Appendix D's HMAC value for counter 5 truncates to 254676, not that `hotp` of the key "12345678901234567890" gives 254676 (otp.cpp:86). Computing HMAC-SHA-1 of the key inside the verifier is beyond it.
- `Otp.HotpVectorCounter6`: checks the truncation stage only. It proves that RFC 4226 Appendix D's HMAC value for counter 6 truncates to 287922, not that `hotp` of the key "12345678901234567890" gives 287922 (otp.cpp:87). Computing HMAC-SHA-1 of the key inside the verifier is beyond it.
- `Otp.HotpVectorCounter7`: checks the truncation stage only. It proves that RFC 4226 Appendix D's HMAC value for counter 7 truncates to 162583, not that `hotp` of the key "12345678901234567890" gives 162583 (otp.cpp:88). Computing HMAC-SHA-1 of the key inside the verifier is beyond it.
- `Otp.HotpVectorCounter8`: checks the truncation stage only. It proves that RFC 4226 Appendix D's HMAC value for counter 8 truncates to 399871, not that `hotp` of the key "12345678901234567890" gives 399871 (otp.cpp:89). Computing HMAC-SHA-1 of the key inside the verifier is beyond it.
- `Otp.HotpVectorCounter9`: checks the truncation stage only. It proves that RFC 4226 Appendix D's HMAC value for counter 9 truncates to 520489, not that `hotp` of the key "12345678901234567890" gives 520489 (otp.cpp:90). Computing HMAC-SHA-1 of the key inside the verifier is beyond it.
- `Otp.TotpCounterVectors`: checks the counter stage only. It proves the time counters T of RFC 6238 Appendix B for the six times, not the 8-digit codes `totp` of the key gives (otp.cpp:91-96). Those need HMAC-SHA-1 of the key, which is beyond the verifier.
- Strings are sequences of characters, while `std::string` counts bytes. For ASCII text the two agree, and only ASCII is ever accepted or produced. For non-ASCII input they differ: `Base32.FromBase32`, `Base32.FromUnpaddedBase32` and `Base32.B32ChunkToBytes` see a multi-byte character as one character. So the length check may fail where the source's passes, and the padding added by `fromUnpaddedBase32` may differ. A rejected character is reported whole, where the source reports its first byte. `Bytes.FromHexStringSkipUnknown` gives the same result either way, because it skips the character and each of its bytes alike.
- `Hotp`: the HMAC function parameter `hmacf` is fixed to the default HMAC-SHA-1. The digest is therefore always 20 bytes. The source only needs at least 19 bytes, and `substr` clamps a shorter tail; that clamping is not modelled.
- `Sha1.Lrot32`: requires a count of 1 to 31. A count of 0 or 32 would shift a `uint32_t` by 32, which is undefined in C++. The source only uses 1, 2, 5 and 30. Its contract states the rotation for those four counts only: for a symbolic count the bit-vector proof is beyond the verifier.
- `Sha1.BitLength`: has no contract of its own. Reading the 64-bit length back as an integer is beyond the verifier. `Sha1.PadMessageParts` states where it lands in the padded message.
- `Sha1.H0`, `Sha1.Round`, `Sha1.Rounds` and `Sha1.Compress` are definitions without a contract of their own. They follow FIPS 180-4 sections 5.3.1 and 6.1.2 line by line. `Sha1.RoundStep`, `Sha1.RunRounds` and `Sha1.Sha1` tie the source's loops to them, and `Sha1.HashBlocksAppend` states how the block loop composes. A closed-form statement of 80 rounds on symbolic words is beyond the verifier.
- `Otp.Hotp`: requires that `digits10` is not zero, which means a digit count below 32. For 32 or more digits it wraps to zero and `% digits10` is undefined.
- `Otp.Totp`: requires a time step above zero. A zero step is a division by zero in the source.
- The source shifts a `uint8_t` left by 24 after promotion to `int`. For a byte of 0x80 or more this reaches the sign bit. The model takes the value that conversion back to `uint32_t` gives in practice: the bytes read big-endian.
- `Base32.Base32RoundTrip` proves decode(encode(x)) == x only. The reverse, encode(decode(s)) == s, does not hold. The decoder accepts non-canonical chunks whose unused low bits are not zero, and those re-encode differently.
- `Otp.HotpAsWritten`: for ten or more digits the model follows the source's wrap of `digits10` rather than RFC 4226. See Findings.

## Findings

| source | as written | input that shows it | evidently intended | confidence | as-written member | corrected member |
|---|---|---|---|---|---|---|
| src/libcppotp/otp.cpp:35-58 | `digits10` is a `uint32_t` multiplied by ten `digitCount` times. At ten digits it wraps to 1410065408, not 10^10, and the code is reduced modulo that. | `hotp` with `digitCount` = 10 and an HMAC whose truncated value is 2147483647 (`7f ff ff ff` at offset 0). It returns 737418239 rather than 2147483647. | Reduce by 10^10, as RFC 4226 section 5.3 defines: a ten-digit code keeps the whole 31-bit value. | not executed | `Otp.TenDigitCodeDiffers` | `Otp.HotpValue` |
