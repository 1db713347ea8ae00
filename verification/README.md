# Verification of rust-litecoin's coding, arithmetic and hashing core

This project models, in Dafny, the parts of a Litecoin library in which a short, stateful or
fixed-width computation has to agree with a plain mathematical definition:

- **BIP 158 filters** (`BitStream`, `Golomb`, `Gcs`, `BlockFilter`): a bit writer and reader, the
  Golomb-Rice coder on top, the coded set, and the two one-pass queries. The end result is that a
  filter built from any elements answers both queries as plain set membership of the mapped elements,
  never reads past its end, and never misses an element.
- **256-bit integers and proof of work** (`Uint256`, `Division`, `Multiply`, `Work`, `Compact`,
  `Retarget`, `Float`, `FormatU256`): pairs of 128-bit halves refine integer arithmetic; on top of
  them the compact target encoding, the target/work inversion, whole runs of difficulty adjustments,
  the conversion to binary64 and decimal printing.
- **Base58 and Base58Check** (`Radix`, `Base58`): radix conversion in place, in both directions, and
  why a scratch of 11/15 of the length suffices.
- **Streaming hashes** (`HashEngine`, `Midstate`, `Words`, `Sha256Block`, `Sha256`, `Hmac`,
  `SipHash`): buffering and padding around any block function, the second loop-only implementation,
  tagged hashes, the unrolled SHA-256 block function, HMAC and SipHash-2-4.
- **Amounts** (`Amount`, `Decimal`): the decimal parser and printer over nine denominations.
- **BIP 152 compact blocks** (`CompactBlocks`): differential indexes, and the split of a block into
  prefilled transactions and short ids.

`Arith`, `Bits` and `Results` hold the integer and bit facts shared by all of them. Bytes and machine
words are numbers with an upper bound; every wrap-around, truncation and masked shift amount of the
program is written out. `Bits.Shl`, `Shr`, `Low`, `Or` and `And` are the shifts, truncation and bitwise
operators on numbers. Classes model what the program updates in place; pure computations are
functions. Arithmetic that panics in a debug build and wraps in a release build is modelled as
wrapping, except in `CompactBlocks.EncodeIndexes`, where the panic is the documented behaviour and part of
the model. What the program asserts of its callers, such as a non-zero divisor, a midstate length of whole
blocks or an HMAC block of at most 128 bytes, is a precondition, and so are two panics that "Left out" names.

Statements that turned out not to hold of the code are kept as they are and given their exact condition:

- `overflowing_mul` adds the product of the top limb without its shift. `Multiply.MulIsProductIff` says
  exactly when the result is nevertheless the wrapped product; `Multiply.MisplacedLimb` is an input
  where it is not. Its flag is documented to tell overflow; `Multiply.FlagIsOverflowIff` says exactly when
  it does, which for factors below 2^192 is never in case of an overflow. `Multiply.UnflaggedOverflow` is
  an input, and `Multiply.NoFalseAlarm` shows that the flag errs in this direction only.
- `inverse` is documented as the quotient of `2^256` by `x + 1`; `Work.InverseIsQuotient` shows that
  this holds exactly from `x = 2` on. Target to work and back is the identity exactly under the
  condition of `Work.InverseTwice`.
- Retargeting multiplies in 256 bits before it divides. `Retarget.AdjustedIsRuleIff` says exactly when
  the result is still the documented one, and `Retarget.MainnetWraps` shows that the main network's own
  limit and timespan do not exclude the wrap.
- For the same reason a target is not kept above a quarter of its predecessor. `Retarget.OneStep` and
  `Retarget.KeepsQuarterIff` say exactly when it is, `Retarget.RunIsSafe` says so for every step of every
  run, and `Retarget.MainnetCollapses` is an input on the main network where it falls below a 302400th.
- A compact form decodes to the number it denotes exactly when that number has at most 256 bits
  (`Compact.TargetIsDenotedIff`), because the shift amount is taken modulo 256; `Compact.WrappedForm` is
  one that does not.
- The differential positions of prefilled transactions are stored in 16 bits; `CompactBlocks.FromBlock`
  says exactly when a receiver recovers them and the block, and `CompactBlocks.FarPrefill` is a block
  where it does not.
- The position reported for a too precise amount is documented as the first digit that is too precise;
  among integer digits it is the last non-zero one (`Amount.IsTooPrecise`). `Amount.PositionIsFirstIff`
  says exactly when both agree, and `Amount.LastIsReported` is an input where they do not.
- In denominations finer than a satoshi the amount parser accepts some strings with two signs as zero,
  and in coarser ones a lone decimal point (`Amount.OddZeros`); `Amount.ParseSignedToSatoshi` says
  exactly which strings are accepted.

## Model

| member | source | states |
|---|---|---|
| BitStream.BitStreamWriter.Write | litecoin/src/bip158.rs:529-547 | appends exactly the low `nbits` bits of the value to everything written before, most significant first, and counts the bytes that left the buffer; more than 64 bits are refused |
| BitStream.BitStreamWriter.Flush | litecoin/src/bip158.rs:550-559 | completes the open byte with zero bits and writes it; nothing happens at a byte boundary |
| BitStream.BitStreamReader.Read | litecoin/src/bip158.rs:492-512 | takes the next `nbits` pending bits as a number, and fails exactly when fewer are left |
| BitStream.WriteAll | litecoin/src/bip158.rs:529-559 | for every run of writes and one flush, the bytes are the concatenated bits padded with zeros, and the returned counts sum to the bits divided by eight, rounded up |
| BitStream.RoundTrip | litecoin/src/bip158.rs:492-559 | reading the same widths back returns every value modulo two to its width, in order |
| Golomb.RiceRoundTrip | litecoin/src/bip158.rs:429-460 | decoding a code gives the number and exactly the bits behind it, for every 64-bit number and parameter, however long the unary run |
| Golomb.Encode | litecoin/src/bip158.rs:429-447 | appends the Golomb-Rice code of the number, writing runs of ones longer than a word in several pieces |
| Golomb.Decode | litecoin/src/bip158.rs:450-460 | returns what the bits at the front decode to and consumes exactly those; fails exactly when the stream ends inside a code |
| Gcs.MapToRangeScales | litecoin/src/bip158.rs:367 | the high half of the product scales a hash to the range, rounded down, and stays below it |
| Gcs.PlaceScales | litecoin/src/bip158.rs:285-288 | an element is mapped to the floor of its hash times the range `n * m` over 2^64, the range taken modulo 2^64, and below the range where that does not wrap |
| Gcs.CodeRoundTrip | litecoin/src/bip158.rs:391-414 | decoding coded differences of any ascending sequence gives the sequence back, whatever bits follow |
| Gcs.GcsFilterWriter.AddElement | litecoin/src/bip158.rs:384-388 | keeps a set, and drops the empty element |
| Gcs.GcsFilterWriter.Finish | litecoin/src/bip158.rs:391-414 | the written bytes hold, in ascending order, exactly the places of the elements, floor(hash * (n * m mod 2^64) / 2^64), with their count n in front |
| Gcs.WriteValues | litecoin/src/bip158.rs:405-413 | the bytes written for an ascending sequence decode to that sequence |
| Gcs.Seek | litecoin/src/bip158.rs:304-316 | on any stream, the inner read loop stops at the first readable value not below the query, or with the right answer where all values lie below it |
| Gcs.EndsAt | litecoin/src/bip158.rs:303-317 | where one query runs past the last value so do all larger ones, and the earlier ones decide |
| Gcs.ScanAny | litecoin/src/bip158.rs:299-318 | on any stream, one merge pass over sorted queries: true when some query is met, an error when the stream ends before that is settled, else false |
| Gcs.ScanAll | litecoin/src/bip158.rs:343-362 | on any stream, one merge pass: false when some query is passed without being met, an error when the stream ends before that is settled, else true |
| Gcs.WellFormedVerdict | litecoin/src/bip158.rs:279-363 | on a well-formed filter the answers of the scans are plain set answers about the queries |
| Gcs.MatchAny | litecoin/src/bip158.rs:279-319 | the same for every byte string and element count, malformed ones included; on every well-formed filter, true exactly when some query maps to a held value |
| Gcs.MatchAll | litecoin/src/bip158.rs:322-363 | the same for every byte string and element count, malformed ones included; on every well-formed filter, true exactly when every query maps to a held value |
| Gcs.BuildAndQuery | litecoin/src/bip158.rs:279-414 | a filter built from any elements answers both queries as set membership of those places, written out with the number of elements kept; no read fails, and no element given is missed; the range product may wrap |
| BlockFilter.AddOutputScripts | litecoin/src/bip158.rs:192-200 | adds the output scripts of all transactions except the empty ones and those whose first byte is 0x6a |
| BlockFilter.AddInputScripts | litecoin/src/bip158.rs:203-222 | adds the scripts of all coins spent after the coinbase; it fails exactly when one of them is unknown, naming the first unknown one |
| BlockFilter.NewScriptFilter | litecoin/src/bip158.rs:131-144 | the filter of a block holds, with the parameters 19 and 784931, exactly the mapped created and spent scripts; it fails exactly when a spent coin is unknown, naming the first |
| BlockFilter.FindsBlock | litecoin/src/bip158.rs:131-163 | looking for scripts in a block by its filter answers exactly when all spent coins are known, and is true exactly when some query maps where a script of the block does, so every script of the block is found |
| Uint256.BitCount | litecoin/src/pow.rs:621-627 | the least number of bits that hold the value |
| Uint256.OverflowingAdd | litecoin/src/pow.rs:706-723 | the sum modulo 2^256, and whether it wrapped |
| Uint256.OverflowingSub | litecoin/src/pow.rs:731-735 | the difference modulo 2^256 by two's complement, and whether it borrowed |
| Uint256.Not | litecoin/src/pow.rs:967 | the complement subtracts from 2^256 - 1 |
| Uint256.WrappingInc | litecoin/src/pow.rs:792-802 | adds one modulo 2^256 across the halves |
| Uint256.WrappingShl | litecoin/src/pow.rs:812-829 | shifts the value left across the halves by the amount modulo 256, cut to 256 bits |
| Uint256.WrappingShr | litecoin/src/pow.rs:839-856 | shifts the value right across the halves by the amount modulo 256 |
| Division.DivRem | litecoin/src/pow.rs:666-698 | for every divisor above zero, the dividend is quotient times divisor plus a remainder below the divisor |
| Division.LongDivide | litecoin/src/pow.rs:682-697 | the shift-subtract loop keeps the division equation at every shift and ends with the full quotient |
| Division.DivisionIsQuotient | litecoin/src/pow.rs:656-665 | that equation determines quotient and remainder |
| Work.Inverse | litecoin/src/pow.rs:572-589 | computes the quotient of 2^256 by one more than the argument through complement and division, with its three special cases |
| Work.InverseIsQuotient | litecoin/src/pow.rs:567-589 | the documented formula holds exactly from two on |
| Work.InverseAntitone | litecoin/src/pow.rs:572-589 | a larger target never means more work, on all inputs |
| Work.InverseTwice | litecoin/src/pow.rs:572-589 | converting to work and back restores the target exactly under the stated condition |
| Work.InverseRoundTrip | litecoin/src/pow.rs:233 | it restores every target from 1 to below 2^128 |
| Work.InverseLosesLargeTargets | litecoin/src/pow.rs:102 | an input that is not restored |
| Work.Difficulty | litecoin/src/pow.rs:260-267 | the quotient of the limit by the target, saturated at 128 bits |
| Multiply.MulU64 | litecoin/src/pow.rs:638-654 | the limb-wise product by a 64-bit factor is the product modulo 2^256, and the flag says whether it wrapped |
| Multiply.OverflowingMul | litecoin/src/pow.rs:744-762 | what the limb loop and the unshifted top limb compute, flag included |
| Multiply.MulIsProductIff | litecoin/src/pow.rs:744-762 | the result is the wrapped product exactly when the top limb contributes nothing modulo 2^256 |
| Multiply.SmallFactor | litecoin/src/pow.rs:744-762 | for every factor below 2^192 it is the wrapped product, and the flag is never set |
| Multiply.MisplacedLimb | litecoin/src/pow.rs:748-759 | two operands whose result is not their wrapped product |
| Multiply.NoFalseAlarm | litecoin/src/pow.rs:738-762 | the flag never reports an overflow that did not happen, for all operands |
| Multiply.FlagIsOverflowIff | litecoin/src/pow.rs:738-762 | when the documented flag tells overflow: below 2^192 on the right exactly when there is none; below 2^64 on the left exactly when there is none or the operand times the misplaced sum of the parts is too large; with both larger there always is one |
| Multiply.UnflaggedOverflow | litecoin/src/pow.rs:738-762 | an overflow to zero that is not flagged |
| Compact.FromCompact | litecoin/src/pow.rs:173-194 | decodes mantissa and exponent, negative forms to zero, with the shift taken modulo 256 |
| Compact.NegativeIsZero | litecoin/src/pow.rs:188-193 | a form with three or more bytes and its sign bit set decodes to zero |
| Compact.TargetIsDenotedIff | litecoin/src/pow.rs:173-194 | the decoded number is the denoted one exactly when that has at most 256 bits |
| Compact.WrappedForm | litecoin/src/pow.rs:173-194 | a compact form that denotes 2^256 and decodes to one |
| Compact.ToCompactLossy | litecoin/src/pow.rs:200-215 | the top bytes, aligned so that the sign bit stays clear, with the byte length above them |
| Compact.EnoughKept | litecoin/src/pow.rs:200-215 | whenever bits are lost, the mantissa keeps at least sixteen |
| Compact.DecodeEncode | litecoin/src/pow.rs:173-215 | decoding an encoded target clears the bits below one mantissa unit and nothing else |
| Compact.TruncatedBelow | litecoin/src/pow.rs:196-215 | the round trip never increases a target and loses less than one mantissa unit |
| Compact.EncodeDecodeEncode | litecoin/src/pow.rs:196-215 | encoding again changes nothing |
| Compact.CompactMonotone | litecoin/src/pow.rs:200-215 | encodings compare as the targets do |
| Compact.TruncatedMonotone | litecoin/src/pow.rs:173-215 | round trips compare as the targets do |
| Retarget.FromNextWorkRequired | litecoin/src/pow.rs:391-415 | the compact form of the scaled and capped previous target, for a timespan clamped to a quarter and four times the intended one, or the last one where retargeting is off |
| Retarget.SpanIsClamped | litecoin/src/pow.rs:401-403 | a timespan that is too short counts as a quarter of the intended one, one that is too long as four times that, any other as it is |
| Retarget.LongerIsEasier | litecoin/src/pow.rs:391-415 | where no product wraps, a longer timespan never gives a smaller next target, compact form or decoded target |
| Retarget.Adjust | litecoin/src/pow.rs:405-414 | scales by the timespan ratio with a product modulo 2^256 and caps at four times the previous target and the limit |
| Retarget.AdjustedIsRuleIff | litecoin/src/pow.rs:405-414 | the computed target is the documented one exactly when neither the product nor the quadrupled target wraps, or the wrapped value still does not decide |
| Retarget.OneStep | litecoin/src/pow.rs:302-329 | for all parameters, one adjustment stays below the limit and four times its predecessor, and keeps a quarter (truncated) exactly when the wrapped values do |
| Retarget.KeepsQuarterIff | litecoin/src/pow.rs:296-302 | with a timespan divisible by four and room to quadruple, the quarter is kept exactly when the product does not wrap or its wrapped quotient still reaches the quarter |
| Retarget.RunIsSafe | litecoin/src/pow.rs:391-415 | over every run of any network, whatever the timespans: every target keeps the upper bounds, keeps the lower bound exactly when the wrapped values do, and always where nothing wraps |
| Retarget.RunWithoutWraps | litecoin/src/pow.rs:391-415 | with parameters under which no product can wrap, every step of every run keeps all bounds |
| Retarget.MainnetWraps | litecoin/src/consensus/params.rs:91-94 | from the compact limit of the main network, after its longest timespan, the documented compact target is the limit and the computed one is not |
| Retarget.MainnetCollapses | litecoin/src/consensus/params.rs:91-94 | from the same limit, a slow period of 1048593 seconds makes the target fall below a 302400th, far under the documented quarter |
| Float.ToF64 | litecoin/src/pow.rs:882-914 | the pattern is the nearest binary64 value, ties to even, of every 256-bit integer |
| Float.Mantissa | litecoin/src/pow.rs:888-905 | the branch-free increment decides round-half-even on all 203 dropped bits |
| Float.RoundedIsNearest | litecoin/src/pow.rs:904-913 | a rounded mantissa is nearest among all finite patterns, also where it carries into the exponent |
| Float.NextPattern | litecoin/src/pow.rs:910-913 | consecutive bit patterns are one unit in the last place apart, also across exponents |
| FormatU256.FmtDecimal | litecoin/src/pow.rs:859-878 | writes the canonical decimal numeral of every non-zero value within the 78-byte buffer |
| FormatU256.AtMost78 | litecoin/src/pow.rs:860 | no 256-bit number has more than 78 digits |
| Decimal.NumberOfNumeral | litecoin/src/pow.rs:859-878 | a numeral spells its number and has no leading zero |
| Radix.ScratchSuffices | base58/src/lib.rs:65-85 | 58^len is at most 256^(1 + 11 len / 15) for every length, so nothing is ever carried out of the scratch |
| Radix.DigitsUnique | base58/src/lib.rs:64-92 | value and number of leading zeros determine the digits in any base |
| Base58.StandsForOneToOne | base58/src/lib.rs:64-185 | no string stands for two byte sequences and no byte sequence has two strings |
| Base58.MulAdd58 | base58/src/lib.rs:79-84 | one pass over the scratch multiplies its number by 58 and adds the digit, with the carry above it |
| Base58.RankOrder | base58/src/lib.rs:25 | the place of a letter among the letters and digits other than 0, O, I and l follows their order |
| Base58.DigitOf | base58/src/lib.rs:43-62 | the table holds that place for exactly these letters and nothing for any other byte |
| Base58.CharOf | base58/src/lib.rs:25 | the alphabet has at each place the letter of that place |
| Base58.Decode | base58/src/lib.rs:64-92 | succeeds exactly on strings over the alphabet, with the bytes of the same number and leading zeros; else names the first bad character |
| Base58.Encode | base58/src/lib.rs:146-185 | the string stands for the bytes: the same number in base 58, digits being the places of the letters in the alphabet, and a one for every leading zero byte |
| Base58.Absorb | base58/src/lib.rs:164-172 | one input byte turns the canonical digits of a number into those of 256 times it plus the byte |
| Base58.SmallVec.Push | base58/src/lib.rs:198-205 | appends across the boundary of the fixed buffer |
| Base58.EncodeThenDecode | base58/src/lib.rs:64-185 | decoding an encoding gives the bytes back |
| Base58.DecodeThenEncode | base58/src/lib.rs:64-185 | encoding a decoded string gives the string back |
| Base58.EncodeCheck | base58/src/lib.rs:123-126 | encodes the payload followed by its checksum |
| Base58.DecodeCheck | base58/src/lib.rs:95-115 | succeeds with a payload exactly when the string stands for that payload and its checksum; each error says what is wrong with the decoded bytes |
| Base58.FromLEBytes | base58/src/lib.rs:106-107 | the reported checksums are the little-endian numbers of the four bytes |
| Base58.CheckedRoundTrip | base58/src/lib.rs:95-126 | a string decodes to a payload exactly when it is the checked encoding of the payload |
| HashEngine.Engine.Input | hashes/src/util.rs:72-86 | after any calls the engine keeps their concatenation: state after whole blocks, rest in the buffer, stale bytes irrelevant |
| HashEngine.Engine.FromState | hashes/src/sha256.rs:433-442 | an engine resumed after whole blocks keeps the message that led there |
| HashEngine.FoldMore | hashes/src/util.rs:72-86 | bytes up to the end of the pending block join the tail or complete exactly one block |
| HashEngine.FeedZeros | hashes/src/sha256.rs:27-34 | stop byte and the fewest zeros leave exactly the length field open; the pad length never underflows |
| HashEngine.FromEngine | hashes/src/sha256.rs:23-40 | the result is the block function folded over the message padded as in FIPS 180-4, however it was fed |
| HashEngine.PaddedParts | hashes/src/sha512.rs:19-37 | a wider length field is written as zeros and eight bytes, and the padded message is whole blocks |
| HashEngine.PaddedInjective | hashes/src/sha256.rs:23-40 | no two messages share their padded form |
| HashEngine.ZeroCountLeast | hashes/src/sha256.rs:27-34 | no smaller number of zeros fills the last block |
| HashEngine.HashBytes | hashes/src/lib.rs:192-196 | one-shot hashing |
| HashEngine.HashByteChunks | hashes/src/lib.rs:199-209 | hashing chunks is hashing their concatenation |
| Midstate.PartialBlock | hashes/src/sha256.rs:299-324 | each block the message does not fill is that block of the padded message |
| Midstate.WriteLength | hashes/src/sha256.rs:312-322 | shifts and masks write the bit length most significant byte first |
| Midstate.ConstHash | hashes/src/sha256.rs:278-422 | for any block function, the loop-only hash folds it over the padded message, without its last block when unfinalized |
| Midstate.ConstHashAgrees | hashes/src/sha256.rs:108-111 | both implementations give the same hash, for every message and every chunking |
| Midstate.Unfinalized | hashes/src/sha256.rs:290-309 | unfinalized, up to 55 bytes behind whole blocks leave the engine's midstate; more enter one further block |
| Midstate.HashTag | hashes/src/sha256.rs:166-175 | the midstate after the tag's hash taken twice |
| Midstate.TaggedEngine | hashes/src/sha256t.rs:120-128 | the engine of a tag has been fed the tag's hash twice |
| Midstate.TaggedHash | hashes/src/sha256t.rs:71-75 | a tagged hash is the plain hash of the tag's hash twice and the message, as in BIP 340 |
| Words.ChoiceForms | hashes/src/sha256.rs:190 | the program's choice function is that of FIPS 180-4 |
| Words.MajorityForms | hashes/src/sha256.rs:192 | the program's majority function is that of FIPS 180-4 |
| Words.LeftIsRight | hashes/src/sha256.rs:194-198 | its left rotations are the right rotations of the standard |
| Words.RotrIsSum | hashes/src/sha256.rs:194-198 | a rotation by n moves the remainder modulo 2^n above the quotient |
| Words.WordBits | hashes/src/sha256.rs:188-198 | what and, or, exclusive or and complement of words do to each bit |
| Words.ShiftAndSum | hashes/src/sha256.rs:197-255 | a right shift divides by a power of two, and a sum wraps at 2^32 |
| Sha256Block.NextWord | hashes/src/sha256.rs:252-253 | four words of the window make up the next word of the 64-word schedule |
| Sha256Block.WindowMoves | hashes/src/sha256.rs:252-253 | overwriting the oldest word keeps the last sixteen words of the schedule in place |
| Sha256Block.Round | hashes/src/sha256.rs:244-250 | one round in rotated registers is one round of section 6.2.2 of FIPS 180-4 |
| Sha256Block.LaterRound | hashes/src/sha256.rs:251-255 | a later round also moves the window on by one word |
| Sha256Block.ProcessWords | hashes/src/sha256.rs:728-812 | the 64 unrolled rounds compute the intermediate hash of section 6.2.2, for every state and block |
| Sha256Block.ConstantsAreCubeRoots | hashes/src/sha256.rs:739-803 | the 64 constants are the first 32 fractional bits of the cube roots of the first 64 primes, as in section 4.2.2 of FIPS 180-4 |
| Sha256.SoftwareProcessBlock | hashes/src/sha256.rs:720-813 | the same on the bytes of the buffer |
| Sha256.ReadU32 | hashes/src/sha256.rs:261-266 | shifts and ors read the big-endian number of four bytes |
| Sha256.InitialIsSquareRoots | hashes/src/sha256.rs:67-68 | the initial words are the first 32 fractional bits of the square roots of the first eight primes, as in section 5.3.3 of FIPS 180-4 |
| Sha256.ConstSha256 | hashes/src/sha256.rs:278-424 | the loop-only SHA-256, rounds, word reads and byte writes included, is SHA-256, and unfinalized the state before the last padded block |
| Sha256.ParseWritten | hashes/src/sha256.rs:436-439 | a state written as 32 bytes has its eight words in order, most significant byte first, and is read back |
| Sha256.TaggedSha256 | hashes/src/sha256t.rs:154-159 | for the real SHA-256, a tagged hash is SHA256(SHA256(tag), SHA256(tag), message) |
| Hmac.HmacEngine.constructor | hashes/src/hmac.rs:66-93 | for keys of any length, both engines have been fed the padded key under their pad |
| Hmac.KeyedPad | hashes/src/hmac.rs:69-91 | xoring the key into a pad of 128 bytes gives the zero-filled key under the pad in its first block |
| Hmac.ByteXorIsBitwise | hashes/src/hmac.rs:76-90 | bytes are xored bit by bit |
| Hmac.HmacEngine.Input | hashes/src/hmac.rs:112 | message bytes go behind the inner pad |
| Hmac.FromHmacEngine | hashes/src/hmac.rs:160-165 | the result is the HMAC of section 2 of RFC 2104, with its bytes 0x36 and 0x5c |
| Hmac.HmacChunks | hashes/src/hmac.rs:66-165 | for every key and every chunking of the message |
| SipHash.SipEngine.Input | hashes/src/siphash24.rs:144-181 | after any calls the engine keeps their concatenation |
| SipHash.SipEngine.InputWords | hashes/src/siphash24.rs:164-181 | the word loop absorbs exactly the whole words behind the bytes already used, and all loads stay in range |
| SipHash.LoopEnd | hashes/src/siphash24.rs:165-177 | the loop bound ends after exactly the whole words, whatever the start |
| SipHash.U8To64 | hashes/src/siphash24.rs:229-247 | loads of four, two and one bytes give the little-endian number of up to seven |
| SipHash.JoinLE | hashes/src/siphash24.rs:152 | or-ing shifted bytes above others joins the byte strings |
| SipHash.Round | hashes/src/siphash24.rs:27-47 | the assignments of one round are the SipRound of the SipHash paper |
| SipHash.RotlIsTurn | hashes/src/siphash24.rs:30-45 | a left rotation moves the high bits below the others |
| SipHash.Absorb | hashes/src/siphash24.rs:172-175 | one word is absorbed with the two compression rounds of SipHash-2-4 |
| SipHash.Finalize | hashes/src/siphash24.rs:203-216 | the result is taken after the four finalization rounds, with 0xff as in the paper |
| SipHash.Keyed | hashes/src/siphash24.rs:93-107 | the initial state is the key under the 32 ASCII letters of the paper |
| SipHash.LastWord | hashes/src/siphash24.rs:206 | length byte and pending bytes are the last word of the completed message |
| SipHash.FromEngineToU64 | hashes/src/siphash24.rs:203-216 | the result is the finalized fold over the completed message |
| SipHash.HashChunksToU64 | hashes/src/siphash24.rs:195-216 | however the message is cut into calls, the result is SipHash-2-4 of the whole |
| Amount.IsTooPrecise | units/src/amount.rs:517-532 | none exactly for strings whose last integer digits and all decimals are zeros; else the last non-zero of those digits, or the first non-zero decimal |
| Amount.PositionIsFirstIff | units/src/amount.rs:514-532 | the reported position is the documented first one exactly when at most one of the integer digits in question is non-zero, or the start is a non-zero digit where there is none above them |
| Amount.LastIsReported | units/src/amount.rs:514-532 | an input whose reported position is not the first |
| Amount.ReadDigits | units/src/amount.rs:587-626 | accepts digits with at most one point and few enough decimals, keeping the exact digits; fails otherwise or on overflow |
| Amount.ParseSignedToSatoshi | units/src/amount.rs:538-638 | accepts exactly the strings with a meaning that fits 64 bits, and returns that exact value and sign; a bad character is reported where it stands |
| Amount.ExactCoarse | units/src/amount.rs:587-635 | in coarser denominations the value is integer and decimal digits scaled, nothing rounded |
| Amount.ExactFine | units/src/amount.rs:564-581 | in finer ones the integer part is the exact multiple and the decimals are zeros |
| Amount.UnitValues | units/src/amount.rs:73-83 | what one unit of each denomination, or the fewest units that make one satoshi, are accepted as |
| Amount.ZeroForms | units/src/amount.rs:571-573 | the literals taken for zero are one or more zeros behind at most one sign |
| Amount.OddZeros | units/src/amount.rs:571-573 | strings accepted as zero that are not decimal numbers |
| Amount.DecWidth | units/src/amount.rs:711-721 | the number of decimal digits |
| Amount.Normalize | units/src/amount.rs:742-775 | splits an amount exactly, with as few decimals as possible |
| Amount.FmtSatoshiIn | units/src/amount.rs:731-838 | the text stands for the amount exactly, with exactly the zeros a precision asks for, is as wide as asked or as its bare text, and is the bare text with only fill characters on the side the alignment leaves free, or zeros behind the sign |
| Amount.OneBitcoin | units/src/amount.rs:73-83 | one bitcoin prints as a one and, by denomination, no, two, three, six, eight, nine, eleven or twelve zeros |
| Amount.NumWidth | units/src/amount.rs:776-792 | the width computed beforehand is that of the text |
| Amount.TextMeans | units/src/amount.rs:731-838 | the text of an amount means that amount, in every denomination |
| Amount.ToStringIn | units/src/amount.rs:1002-1006 | the printed string is accepted as the same amount and sign |
| Amount.ToStringWithPrecision | units/src/amount.rs:731-838 | with a precision, the printed string is taken back as the amount exactly when it is short enough and the denomination has that many decimals, or has none and none are asked for or the amount is not the zero of a finer one |
| Amount.AmountFromStrIn | units/src/amount.rs:915-922 | accepts exactly the meaningful strings without a minus sign |
| Amount.SignedFromStrIn | units/src/amount.rs:1307-1318 | accepts exactly the values of a signed 64-bit number, its minimum included |
| Amount.AmountRoundTrip | units/src/amount.rs:915-1006 | printing and parsing gives every unsigned amount back, in every denomination |
| Amount.SignedRoundTrip | units/src/amount.rs:1307-1402 | the same for every signed amount |
| CompactBlocks.IndexesOfDeltas | litecoin/src/bip152.rs:265-316 | decoding the differences of strictly increasing indexes gives the indexes |
| CompactBlocks.DeltasOfIndexes | litecoin/src/bip152.rs:265-316 | encoding decoded indexes gives the differences |
| CompactBlocks.EncodeIndexes | litecoin/src/bip152.rs:265-275 | does not panic exactly on strictly increasing indexes below the 64-bit maximum |
| CompactBlocks.DecodeIndexes | litecoin/src/bip152.rs:299-313 | gives the running indexes, and fails exactly when one reaches the 64-bit maximum |
| CompactBlocks.RequestRoundTrip | litecoin/src/bip152.rs:260-317 | indexes that can be encoded are decoded to themselves |
| CompactBlocks.ReplyRoundTrip | litecoin/src/bip152.rs:260-317 | differences that can be decoded are encoded to themselves |
| CompactBlocks.UsedUp | litecoin/src/bip152.rs:195-233 | the prefill is used up exactly when it is strictly increasing and in range |
| CompactBlocks.MergeSplit | litecoin/src/bip152.rs:195-231 | merging decoded positions with short ids rebuilds the transaction order |
| CompactBlocks.MergedAt | litecoin/src/bip152.rs:195-231 | a merge that uses everything has its full slots at the decoded positions |
| CompactBlocks.FromBlock | litecoin/src/bip152.rs:177-245 | succeeds exactly for versions 1 and 2 and a valid prefill, sends the coinbase first, stores the cut differences, and is merged back to the block exactly when all gaps fit 16 bits, as in blocks of at most 2^16 transactions; version 1 sends stripped transactions and short transaction ids, version 2 whole ones and short witness ids |
| CompactBlocks.FarPrefill | litecoin/src/bip152.rs:195-231 | a block of 65538 transactions whose last one is decoded to the second place |
| CompactBlocks.FromRequest | litecoin/src/bip152.rs:355-372 | the requested transactions in request order; the first index out of range is reported |

## Left out

- Gcs.GcsFilterWriter.Finish: the element count is a field next to the bytes, because the variable-length integer in front of them is not part of this model.
- HashEngine.FromEngine: messages of 2^61 bytes and more, whose bit length the code truncates, are excluded.
- Amount.ParseSignedToSatoshi: strings are sequences of one-byte characters, so that the length limit and error positions, which count bytes, are those of the code for ASCII input.
- Amount.FmtSatoshiIn: the denomination suffix is a parameter.
- CompactBlocks.FromBlock: a prefill longer than the block is excluded, because the program subtracts the lengths to reserve memory and panics there.
- Retarget.FromNextWorkRequired: timespans so large that four times them wraps below a quarter of them are excluded, because the program's clamp panics on bounds that are not ordered.
- SipHash.U8To64: raw-pointer loads are modelled by the little-endian number they read.
- Work.Difficulty: the limit is a parameter, and division by zero, where the code panics, is excluded.
- I/O errors other than the end of the data: streams are byte sequences.
- Variable-length integers, consensus encoding and decoding of transactions, blocks and headers, and the allocation guard of the decoder.
- Transactions and scripts beyond what filters and compact blocks see of them: transactions are abstract, witness stripping and transaction ids are parameters.
- The keyed hash of filters and the short ids of compact blocks stay parameters; SipHash-2-4 is modelled on its own.
- The block functions of SHA-1, SHA-512 and RIPEMD-160, and RIPEMD-160's little-endian length field; SHA-512 is covered as far as buffering and padding go.
- The SHA-256 path over processor intrinsics, and the variants compiled for fuzzing.
- Parsing of denominations and of amounts with a denomination suffix, amount arithmetic, and all conversions from and to floating point other than `to_f64`.
- Hexadecimal formatting and parsing, serde support, error messages, and conversions of 256-bit integers from and to bytes.
- BIP 32 key derivation, addresses, scripts, PSBTs, taproot and message signing, which rest on the secp256k1 library or on plumbing around it.
