# OCRA suite validation and one-time-password generation, in Dafny

A model of the core of the `ocra` C++ library, an implementation of OCRA (the
OATH Challenge-Response Algorithm of RFC 6287). An `Ocra` object is built from
a suite text such as `OCRA-1:HOTP-SHA1-6:QN08`. The text is upper-cased and
validated into an `OcraSuite`; every violated rule has its own status code,
0x01 to 0x1E. Given `OcraParameters`, the object then builds the message:
the suite text, a zero byte, the counter, a 128-byte question, the hashed
password, the session information and the timestamp. It passes the message
to a user-supplied HMAC and truncates the digest dynamically, as in RFC 4226,
to a decimal password.

The modules follow the library's structure:

- `Results` holds `Option` and `Result`. Every throwing or status-setting path
  of the library becomes a `Failure`.
- `Errors` holds one `ErrorCode` per rule and its numeric code.
- `Ascii` models `toupper`, C `atoi`, decimal text, and the narrowing into
  `uint8_t` and `uint16_t`.
- `Bytes` holds bytes, bitwise OR as arithmetic, and big-endian words.
- `Splitter` models the `split<N>` template of ocra.hpp.
- `SuiteModel` holds `OcraSuite`, its validity, and the message length it fixes.
- `SuiteParser` models `Validate` and its `Validate*` and `Insert*` helpers.
- `SuiteText` models `OcraSuite::to_string` and its round trip through the
  validator.
- `HexCodec` models `StringHexToUint8` and `uint256DecToHex`.
- `Message` models `ConcatenateOcraSuite` through `ConcatenateTimestamp`, and
  the message `operator()` assembles from them.
- `Truncation` models dynamic truncation and the decimal formatting loop.
- `Generator` models the `Ocra` constructor, `From` and `operator()`.

The SHA and HMAC functions are not modelled. They are parameters
(`ShaFunction` and `HmacFunction`), and only the lengths of their results are
checked, as the library does.

Where the header and the implementation disagree, the model follows
ocra.cpp. The header declares the fields `hotp` and `OcraDigits` (a modulus
enum), and an `operator()` that takes a key pointer. The implementation uses
`m_suite.hmac`, uses `digits` as a digit count indexing `DIGITS`, and reads the
key from the parameters.

The members named after the library's functions (`Validate`, `ParseTimestamp`,
`TimestampSlot`, `QuestionField`, `Build`, `Truncate`, `Generate`,
`GenerateOtp`, ...) compute what ocra.cpp computes, including its four
defects listed under "## Findings". Each defect also has a corrected
definition, named with the suffix `Corrected` (`ParseTimestampCorrected`,
`ValidateCorrected`, `QuestionFieldCorrected`, `BuildCorrected`,
`TruncateCorrected`, `GenerateCorrected`), and a lemma relates the two
(`ValidateCorrectedAgrees`, `QuestionFieldsAgree`, `TruncationsAgree`,
`GeneratorsAgree`). The parser takes an `HourRule` that selects the
library's timestamp rule (`AsWritten`) or the corrected one (`Corrected`).

`SuiteText.ToString` models `OcraSuite::to_string`. What it promises is
stated by the round-trip lemmas about it: `CanonicalText`, `RoundTrip`,
`RenderInjective` and `CanonicalFixpoint`. They are stated for `Renderable`
suites, whose hour value is at most 99, and that excludes no suite the
validator accepts (`AcceptedIsRenderable`). The data input is split on '-'
before any token is read, so no timestamp token holds a minus sign, and its
one or two digits give at most 99.

## Model

| member | source | states |
|---|---|---|
| Errors.Code | src/ocra/ocra.cpp:152-633 | every rule reports a status code between 0x01 and 0x1E, and 0x14 is never used; the `std::out_of_range` that `substr` throws sets no status code and is told apart by the code 0 |
| Errors.CodeInjective | src/ocra/ocra.cpp:152-633 | distinct rules report distinct codes, so a code identifies the rule that failed |
| Ascii.UpperString | src/ocra/ocra.cpp:390-391 | the C-locale `toupper` loop keeps the length, leaves no lower-case letter, and changes only the letters a to z, each to its capital |
| Ascii.UpperStringFixpoint | src/ocra/ocra.cpp:390-391 | upper-casing the suite text twice equals doing it once; a text is upper-case exactly when upper-casing leaves it unchanged |
| Ascii.AtoI | src/ocra/ocra.cpp:480 | C `atoi` on an n-character string yields a value strictly between -10^n and 10^n; its value in every case is given by AtoISigned, AtoIUnsigned and AtoINoNumber |
| Ascii.AtoIOfDigits | src/ocra/ocra.cpp:480 | `atoi` of a non-empty string of decimal digits is its decimal value |
| Ascii.AtoISigned | src/ocra/ocra.cpp:480 | `atoi` of white space, a sign, digits and a tail that does not start with a digit is the signed value of the digits; the tail is ignored |
| Ascii.AtoIUnsigned | src/ocra/ocra.cpp:504 | `atoi` of white space, a non-empty digit run and a tail that does not start with a digit is the value of the digits (so `A4X` reads 4 after the format letter) |
| Ascii.AtoINoNumber | src/ocra/ocra.cpp:523 | `atoi` of white space followed by neither a sign nor a digit is 0 |
| Ascii.AtoINonNegative | src/ocra/ocra.cpp:523 | `atoi` of a text without a minus sign is never negative |
| Ascii.ToU8 | src/ocra/ocra.cpp:473-480 | storing into the `uint8_t` challenge length keeps the value modulo 256 and leaves 0..255 unchanged |
| Ascii.ToU16 | src/ocra/ocra.cpp:504 | storing into the `uint16_t` session length keeps the value modulo 65536 and leaves 0..65535 unchanged |
| Bytes.BitOrDisjoint | src/ocra/ocra.cpp:195-199 | ORing a value shifted left by k bits with a value below 2^k equals adding them |
| Bytes.NibbleOr | src/ocra/ocra.cpp:375-384 | ORing a nibble into a byte whose low nibble is clear equals adding it |
| Bytes.BigEndianByte | src/ocra/ocra.cpp:237-244 | byte k of the n-byte encoding is `(v >> 8(n-1-k)) & 0xFF` |
| Bytes.BigEndianRoundTrip | src/ocra/ocra.cpp:237-244 | the n big-endian bytes of a value below 256^n read back as that value |
| Bytes.Word64 | src/ocra/ocra.cpp:237-244 | a 64-bit counter or timestamp becomes 8 bytes whose big-endian value is that number |
| Splitter.FieldEnd | src/ocra/ocra.hpp:149-150 | the field scan stops at the first delimiter or NUL, or at the end of the text |
| Splitter.FieldEndAt | src/ocra/ocra.hpp:149-150 | the scan ends exactly at the first position holding a delimiter or a NUL |
| Splitter.Split | src/ocra/ocra.hpp:132-157 | `split<N>` fills N slots and reports a field count between 1 and N + 1 |
| Splitter.SplitFieldsClean | src/ocra/ocra.hpp:140-157 | no stored field contains the delimiter or a NUL |
| Splitter.SplitCount | src/ocra/ocra.hpp:140-157 | the count is the number of delimiters before the first NUL plus one, capped at N + 1 |
| Splitter.SplitJoin | src/ocra/ocra.hpp:140-157 | when the count is at most N, joining the counted fields with the delimiter gives back the text, and the other slots are empty |
| Splitter.JoinSplit | src/ocra/ocra.hpp:140-157 | splitting the join of 1..N fields that hold no delimiter and no NUL returns those fields, padded with empty slots, with their number as the count |
| SuiteParser.ParseCryptoFunction | src/ocra/ocra.cpp:422-463 | an accepted crypto function has 0 or 4..10 digits; the error is 0x03 exactly when the field does not have three '-' parts, 0x04 exactly when it has and the first is not HOTP, 0x05 exactly when after HOTP the hash is not SHA1, SHA256 or SHA512, and 0x06 exactly when those pass and the digit count is not 0 or 4..10 |
| SuiteParser.ParseChallenge | src/ocra/ocra.cpp:465-483 | the error is 0x07 exactly when the body does not have three characters, 0x08 exactly when the format letter is not A, N or H, and 0x09 exactly when the `uint8_t` value of `atoi` of the last two characters is outside 4..64; an accepted challenge has the letter's format and that value as its length |
| SuiteParser.ChallengeTailIgnored | src/ocra/ocra.cpp:478-482 | a length field of one digit 4..9 followed by any non-digit is accepted as that digit, since `atoi` stops at the non-digit (`A4X` is length 4) |
| SuiteParser.ParsePassword | src/ocra/ocra.cpp:485-496 | the descriptor fails with 0x0A exactly when the body is not SHA1, SHA256 or SHA512 |
| SuiteParser.ParseSession | src/ocra/ocra.cpp:498-507 | the error is 0x0B exactly when the body does not have three characters, and 0x0C exactly when the `uint16_t` value of its `atoi` is outside 1..512; an accepted session length is that value |
| SuiteParser.ParseTimestamp | src/ocra/ocra.cpp:509-527 | as written: the error is 0x0D exactly when the body does not have two or three characters, 0x0E exactly when the last is not S, M or H, and 0x0F exactly when the unit is S or M and the `uint8_t` value of `atoi` of the rest is outside 1..59; an hour value never fails; an accepted step has the letter's unit and that value |
| SuiteParser.HoursBoundNotEnforced | src/ocra/ocra.cpp:525 | as written, the hour bound never fires: the timestamp rule accepts `99H` as 99 hours; on its own it also accepts `-1H` as 255, a body the validator never hands it (`SuiteText.NegativeHoursRejected`) |
| SuiteParser.ParseTimestampCorrected | src/ocra/ocra.cpp:525 | corrected: accepts exactly what the written rule accepts minus hour values above 48, which fail with 0x0F; every other failure is the written one |
| SuiteParser.HoursBoundEnforced | src/ocra/ocra.cpp:525 | the corrected timestamp rule rejects the bodies `99H` and `-1H` with 0x0F |
| SuiteParser.CounterSlot | src/ocra/ocra.cpp:529-543 | the slot fails, with a data-input error, exactly when the token is empty; otherwise it consumes the token exactly when it starts with C |
| SuiteParser.ChallengeSlot | src/ocra/ocra.cpp:545-562 | the error is 0x1C exactly when the token is empty and 0x1D exactly when it does not start with Q; a Q token is decided by the challenge rule |
| SuiteParser.PasswordSlot | src/ocra/ocra.cpp:564-578 | a password hash is set exactly when the token starts with P |
| SuiteParser.SessionSlot | src/ocra/ocra.cpp:580-594 | a session length in 1..512 is set exactly when the token starts with S; otherwise it stays 0 |
| SuiteParser.TimestampSlot | src/ocra/ocra.cpp:596-610 | a T token is read by the timestamp rule in force and its result kept; any other token leaves the slot empty; under the library's rule an hour value is not bounded |
| SuiteParser.ParseTokens | src/ocra/ocra.cpp:614-632 | the slots consume the tokens in the order C, Q, P, S, T; an empty first token fails with 0x1B; after it, the challenge token fails with 0x1C exactly when empty and 0x1D exactly when it does not start with Q; an accepted input consumed exactly `count` tokens, each starting with its slot's letter |
| SuiteParser.PasswordWalk | src/ocra/ocra.cpp:626-632 | from the P slot on, the consumed tokens start with the letters of the slots filled, and the walk ends at the count |
| SuiteParser.SessionWalk | src/ocra/ocra.cpp:627-632 | from the S slot on, the consumed tokens start with the letters of the slots filled, and the walk ends at the count |
| SuiteParser.TimestampWalk | src/ocra/ocra.cpp:628-632 | a failing T slot's error is reported as it stands; once the slot accepts, the error is 0x1E exactly when the walk does not end at the count |
| SuiteParser.LeftoverRejected | src/ocra/ocra.cpp:631-632 | the data input is accepted only when the count equals the number of tokens the slots consumed, and fails with 0x1E exactly when the count differs and every slot accepted its token |
| SuiteParser.ParseDataInput | src/ocra/ocra.cpp:612-633 | an accepted data input is valid; its `split<5>` count equals the number of slots filled, each token starting with its slot's letter; an empty first token fails with 0x1B |
| SuiteParser.RepeatedTokenRejected | src/ocra/ocra.cpp:612-633 | two counted tokens with the same first letter make the data input fail |
| SuiteParser.EmptyTokenRejected | src/ocra/ocra.cpp:612-633 | an empty counted token makes the data input fail |
| SuiteParser.Validate | src/ocra/ocra.cpp:388-420 | as written: an accepted suite is valid; the error is 0x01 exactly when the text does not split into three ':' fields, and 0x02 exactly when the version is not OCRA-1; data-input errors arise only after the crypto function passed |
| SuiteParser.ValidateStages | src/ocra/ocra.cpp:398-410 | after the version, a crypto-function error is reported as it stands, then a data-input error; an accepted suite carries the HMAC, digit count and data input those stages parsed |
| SuiteParser.ValidateCorrected | src/ocra/ocra.cpp:525 | the corrected validator accepts only suites whose hour value is at most 48 |
| SuiteParser.ValidateCorrectedAgrees | src/ocra/ocra.cpp:525 | the corrected validator accepts exactly the suites the library accepts whose hour value is at most 48, parses them alike, and otherwise fails as the library does or with 0x0F |
| SuiteParser.ValidateIgnoresCase | src/ocra/ocra.cpp:390-391 | validating the upper-cased text gives the same result as validating the text |
| SuiteText.IntendedRenderable | src/ocra/ocra.cpp:126-133 | every suite within the intended hour bound is rendered in decimal digits |
| SuiteText.NegativeHoursNotRendered | src/ocra/ocra.cpp:126-133 | taken on its own, the T slot reads `T-1H` as hour 255, which `to_string` would write as `TI5H`, a token that reads back as hour 0; no validated suite has such an hour (`AcceptedIsRenderable`) |
| SuiteText.TimestampSlotSmall | src/ocra/ocra.cpp:509-523 | a T token without a minus sign yields a step of at most 99 |
| SuiteText.DataInputRenderable | src/ocra/ocra.cpp:612-627 | every data input the library accepts has a timestamp step of at most 99 |
| SuiteText.AcceptedIsRenderable | src/ocra/ocra.cpp:612-627 | every suite `Validate` accepts is renderable, so the round-trip lemmas cover all of them |
| SuiteText.DataAround | src/ocra/ocra.cpp:612-627 | a data input of a challenge, then a token the P and S slots pass over, then a third token fails with the T slot's error on the second |
| SuiteText.NegativeHoursData | src/ocra/ocra.cpp:615 | the data input `QA08-T-1H` is split into `QA08`, `T` and `1H`, and fails with 0x0D on `T` |
| SuiteText.NegativeHoursRejected | src/ocra/ocra.cpp:615 | every suite text whose version and crypto function pass and whose data input is `QA08-T-1H`, such as `OCRA-1:HOTP-SHA1-6:QA08-T-1H`, fails with 0x0D |
| SuiteText.ChallengeTokenRoundTrip | src/ocra/ocra.cpp:101-104 | the rendered `Q<F><LL>` token of a challenge with a length in 4..64 is read back by the challenge slot as that challenge |
| SuiteText.PasswordTokenRoundTrip | src/ocra/ocra.cpp:106-111 | the rendered `P<SHA>` token is read back as the same hash |
| SuiteText.SessionTokenRoundTrip | src/ocra/ocra.cpp:113-124 | the rendered `S<nnn>` token of a length in 1..512 is read back as that length |
| SuiteText.TimestampTokenRoundTrip | src/ocra/ocra.cpp:126-133 | the rendered `T<n><unit>` token of a valid time step with a value up to 99 is read back as that time step |
| SuiteText.CryptoRoundTrip | src/ocra/ocra.cpp:62-96 | the rendered `HOTP-SHA<x>-<t>` is parsed back to the same HMAC and digit count |
| SuiteText.ParseTokensOf | src/ocra/ocra.cpp:98-133 | the slot walk reads the rendered data-input tokens, padded to five slots, back to the data input |
| SuiteText.DataRoundTrip | src/ocra/ocra.cpp:98-133 | the rendered data input, joined with '-', validates back to the same data input |
| SuiteText.RoundTrip | src/ocra/ocra.cpp:56-136 | any text whose upper-cased form is `to_string` of a valid suite validates to that suite |
| SuiteText.CanonicalText | src/ocra/ocra.cpp:56-136 | `to_string` of a valid suite is upper-case and validates back to the suite |
| SuiteText.RenderInjective | src/ocra/ocra.cpp:56-136 | two valid suites with the same `to_string` text are equal |
| SuiteText.CanonicalFixpoint | src/ocra/ocra.cpp:56-136 | a text that renders canonically validates, and rendering the result gives back its upper-cased form |
| SuiteText.ChallengeNotPreserved | src/ocra/ocra.cpp:480 | `QA 8` is accepted as a challenge of length 8 but is rendered as `QA08`; `CX` is accepted as the counter token |
| HexCodec.NibbleOf | src/ocra/ocra.cpp:372-379 | a character has a nibble value exactly when it is 0-9, A-F or a-f, and the value is below 16 |
| HexCodec.HexDecode | src/ocra/ocra.cpp:357-386 | the decoded region has the requested size; the only failure is 0x1A |
| HexCodec.HexDecodeValue | src/ocra/ocra.cpp:357-386 | decoding succeeds exactly when every character read is a hex digit; the bytes written, read as one big-endian number, are the value of those digits (shifted by one digit when their count is odd), and every other byte of the region stays zero |
| HexCodec.PackValue | src/ocra/ocra.cpp:368-385 | the bytes the packing loop fills, read big-endian, are the value of the hex digits, times 16 when their count is odd |
| HexCodec.HexRoundTrip | src/ocra/ocra.cpp:357-386 | decoding the upper-case hex text of some bytes gives those bytes back |
| HexCodec.HexEncodeDecode | src/ocra/ocra.cpp:372 | re-encoding the bytes decoded from an even-length hex text gives the upper-cased text |
| HexCodec.UpperPrefixRejected | src/ocra/ocra.cpp:362-366 | only a lowercase `x` marks a prefix: `0x1F` decodes to 0x1F, `0X1F` fails with 0x1A |
| HexCodec.StringHexToUint8 | src/ocra/ocra.cpp:357-386 | the prefix skip, the alignment and the packing loop compute the hex decoding |
| HexCodec.PackLoop | src/ocra/ocra.cpp:368-385 | the loop packs two nibbles per byte from the start position, and fails with 0x1A at the first character that is not a hex digit |
| HexCodec.HexTextValue | src/ocra/ocra.cpp:49-50 | the hex text of a number reads back as the number and has no leading zero |
| HexCodec.HexTextLength | src/ocra/ocra.cpp:34 | a number below 16^n has at most n hex digits |
| HexCodec.MulAdd | src/ocra/ocra.cpp:39-43 | one pass of the inner loop multiplies the little-endian digit array by ten, adds the digit, and leaves a carry of at most 9 |
| HexCodec.FoldDigit | src/ocra/ocra.cpp:38-46 | after one decimal digit, the digit array holds ten times the old value plus the digit, with no leading zero digit |
| HexCodec.LittleDigits | src/ocra/ocra.cpp:34-47 | the digit array built from a decimal string below 2^256 holds its value |
| HexCodec.PrintDigits | src/ocra/ocra.cpp:49-51 | the output loop writes the digits most significant first, followed by NULs up to 65 characters |
| HexCodec.UInt256DecToHex | src/ocra/ocra.cpp:26-53 | for a decimal string below 2^256, the result is the upper-case hex text of its value, NUL-padded to 65 characters |
| Message.CounterField | src/ocra/ocra.cpp:225-247 | fails with 0x12 exactly when the suite has C and no counter is given; otherwise 8 bytes whose big-endian value is the counter, or nothing |
| Message.NumericHex | src/ocra/ocra.cpp:273 | the 65-character converted numeric question begins with the hex text of the value, whose length is the digit count |
| Message.QuestionField | src/ocra/ocra.cpp:249-278 | as written: the question takes 128 bytes; it fails exactly when the question is missing (0x13), a hex question has a non-hex character (0x1A), or the suite is numeric: a numeric question with a non-digit fails with 0x15 and every other one with 0x1A |
| Message.PaddedHexRejected | src/ocra/ocra.cpp:273-274 | the 65 characters of a converted numeric question always put a NUL among the characters the decoder reads, so decoding fails with 0x1A |
| Message.QuestionFieldCorrected | src/ocra/ocra.cpp:273-274 | corrected: the converted numeric question is decoded with its digit count, so the field fails exactly when the question is missing (0x13), a hex question has a non-hex character (0x1A), or a numeric question has a non-digit (0x15) |
| Message.QuestionFieldsAgree | src/ocra/ocra.cpp:273-274 | the written and corrected question fields differ exactly on all-digit numeric questions, where the written one fails with 0x1A and the corrected one succeeds |
| Message.AlphanumericQuestion | src/ocra/ocra.cpp:257-260 | an alphanumeric question is copied byte for byte and zero-padded to 128 bytes |
| Message.NumericAsHex | src/ocra/ocra.cpp:265-275 | with the corrected length, a numeric question is encoded as the hexadecimal question that spells its value |
| Message.HexadecimalField | src/ocra/ocra.cpp:261-264 | a hexadecimal question of at most 64 hex digits fits and is decoded as it stands |
| Message.PasswordField | src/ocra/ocra.cpp:280-304 | 0x16 exactly when a password is required and missing; 0x17 exactly when the injected hash returns the wrong length; otherwise the hash of the password bytes |
| Message.SessionField | src/ocra/ocra.cpp:306-331 | `sessionLength` bytes; fails exactly when session info is required and is missing (0x18) or the `sessionLength` characters read are not all hex (0x1A) |
| Message.ShortSessionFails | src/ocra/ocra.cpp:324-329 | session info shorter than the session length always fails with 0x1A |
| Message.SessionReadsPrefix | src/ocra/ocra.cpp:319-323 | only the first `sessionLength` characters matter; with an even length and no prefix, the second half of the session bytes stays zero |
| Message.TimestampField | src/ocra/ocra.cpp:333-355 | fails with 0x19 exactly when the suite has T and no timestamp is given; otherwise 8 bytes whose big-endian value is the timestamp, or nothing |
| Message.Build | src/ocra/ocra.cpp:173-185 | as written: a numeric suite never yields a message |
| Message.BuildCorrected | src/ocra/ocra.cpp:173-185 | with the corrected question field, the message is the written one for every suite that is not numeric |
| Message.NumericSuiteNeverBuilds | src/ocra/ocra.cpp:273-274 | as written, a numeric suite always fails; whenever the corrected build succeeds, the written one fails with 0x1A; the corrected build succeeds for an all-digit question whose other fields succeed |
| Message.BuildLength | src/ocra/ocra.cpp:164-171 | the message has exactly the length `operator()` allocates for it |
| Message.BuildLayout | src/ocra/ocra.cpp:164-185 | each field lies at its offset: the suite text and zero byte, the counter, the 128 question bytes, the password hash, the session bytes, and the timestamp in the last 8 bytes |
| Message.BuildErrorOrder | src/ocra/ocra.cpp:173-185 | the first failing field decides the error, in the order counter, question, password, session, timestamp; the build succeeds exactly when all fields do |
| Message.BuildErrorCodes | src/ocra/ocra.cpp:173-185 | a failed build reports a code in 0x12..0x1A |
| Message.UnusedInputsIgnored | src/ocra/ocra.cpp:225-355 | parameters the suite does not ask for do not change the message |
| Message.ConcatenateQuestion | src/ocra/ocra.cpp:249-278 | as written: the digit scan, `uint256DecToHex` and the decoder called with the converted text's length, 65, compute the question field |
| Truncation.DynamicOffset | src/ocra/ocra.cpp:194 | the offset is below 16 |
| Truncation.DynamicBinary | src/ocra/ocra.cpp:195-199 | the code is the four bytes at the offset, read big-endian with the top bit cleared, so it is at most 0x7FFFFFFF |
| Truncation.FourBytesOr | src/ocra/ocra.cpp:195-199 | the ORs of the shifted bytes equal their sum, which fits in 31 bits |
| Truncation.Modulus | src/ocra/ocra.cpp:201-203 | for 4..9 digits the `DIGITS` entry is 10^digits |
| Truncation.PadDecimalValue | src/ocra/ocra.cpp:207-214 | the zero-padded text of n digits spells the value modulo 10^n |
| Truncation.PadDecimalMod | src/ocra/ocra.cpp:206 | reducing modulo 10^n first does not change the n-digit text |
| Truncation.DecimalTextValue | src/ocra/ocra.cpp:215 | the unpadded decimal text spells the value and has no leading zero |
| Truncation.FormatOtp | src/ocra/ocra.cpp:205-215 | the formatting loop yields the last `digits` decimal digits, zero-padded; with zero digits `substr` throws |
| Truncation.Truncate | src/ocra/ocra.cpp:201-215 | as written: truncation throws exactly for zero digits and otherwise yields `digits` characters |
| Truncation.TruncateSpec | src/ocra/ocra.cpp:194-215 | as written: zero digits throw; otherwise the password is `digits` decimal digits spelling the code modulo the `DIGITS` entry, which is `INT32_MAX` for ten digits |
| Truncation.TruncateCorrected | src/ocra/ocra.cpp:205-215 | corrected: `digits` characters, or for zero digits a non-empty text |
| Truncation.TruncateCorrectedSpec | src/ocra/ocra.cpp:194-215 | the corrected password is `digits` decimal digits spelling the code modulo 10^digits; with zero digits it spells the whole code without leading zeros |
| Truncation.TenDigitsKeepCode | src/ocra/ocra.cpp:201-203 | the corrected ten-digit password spells the whole 31-bit code |
| Truncation.TruncationsAgree | src/ocra/ocra.cpp:201-215 | the written and corrected truncations agree for 4..9 digits and for ten digits below `INT32_MAX`; the written one throws for zero digits |
| Truncation.DigitsTenWraps | src/ocra/ocra.cpp:201-206 | as written, the code 0x7FFFFFFF with ten digits prints `0000000000`; the corrected version prints `2147483647` |
| Generator.Create | src/ocra/ocra.cpp:139-150 | construction fails exactly when validation fails, with the same error; the object keeps the upper-cased text, which validates to the stored suite |
| Generator.CreateIgnoresCase | src/ocra/ocra.cpp:139-143 | a suite text and its upper-cased form build the same object |
| Generator.CreateFromCanonical | src/ocra/ocra.cpp:139-143 | every renderable suite (hour value up to 99, which includes every suite `Validate` accepts) can be built from its `to_string` text, and the object keeps that text |
| Generator.Generate | src/ocra/ocra.cpp:152-216 | as written: a password has `digits` characters, 4 to 10 of them; a numeric suite or a zero digit count never yields one |
| Generator.GenerateShape | src/ocra/ocra.cpp:152-216 | as written: a password comes from the HMAC of exactly the built message, which has the right digest length, and is `digits` decimal digits spelling the code modulo the `DIGITS` entry |
| Generator.GenerateErrors | src/ocra/ocra.cpp:152-192 | a missing key fails first with 0x10, then message errors pass through; 0x11 is reported exactly when the HMAC returns the wrong length, and the `substr` exception exactly when the rest succeeded with zero digits; a numeric suite always fails |
| Generator.GenerateErrorCodes | src/ocra/ocra.cpp:152-215 | generation never reports a suite error: its codes are in 0x10..0x1A, or it throws `std::out_of_range` |
| Generator.SameMessageSamePassword | src/ocra/ocra.cpp:188-215 | only the key and the message reach the HMAC: parameters that build the same message under the same key give the same password |
| Generator.GenerateCorrected | src/ocra/ocra.cpp:152-216 | corrected: a password for a non-zero digit count has exactly `digits` characters, and no exception is raised |
| Generator.GenerateCorrectedShape | src/ocra/ocra.cpp:152-216 | a corrected password comes from the HMAC of exactly the corrected message and spells the code modulo 10^digits, or for zero digits the whole code |
| Generator.GeneratorsAgree | src/ocra/ocra.cpp:152-216 | the written and corrected generators agree on non-numeric suites with 4 to 9 digits; a written password equals the corrected one unless ten digits meet the code `INT32_MAX`; where the corrected one fails, the written one fails too, the same way unless the suite is numeric |
| Generator.GenerateOtp | src/ocra/ocra.cpp:152-216 | as written: the step-by-step generation, with the `DIGITS` table and the throwing formatting loop, computes `Generate` |

## Left out

- SHA hashing and HMAC are parameters (`ShaFunction`, `HmacFunction`). Their results are checked only for length, as in the library.
- The `OCRA_NO_THROW` mode is not modelled separately. The sticky `m_status` and the thrown exception become one `Result`, and the first failing rule's code is the same in both modes. The `std::out_of_range` that `substr` throws is the `Failure(OutOfRange)` of `Generate`.
- `From` on an existing object does not reset the fields of `m_suite`, and after a failed validation the object keeps a half-filled suite. The model always parses into a fresh suite and yields no object on failure.
- `Ocra()` default-constructed without a suite is not modelled; `operator()` on it reads an unset suite.
- `Message.QuestionFits`: the library never checks that the question fits its buffers. The model requires what keeps the library's writes in bounds. An alphanumeric question must fit the 128 bytes `memcpy` copies it into. A hexadecimal question must pack into 128 bytes. A numeric question must be below 2^256, the capacity of `uint256DecToHex`'s `x[64]`. Longer questions overrun memory, which the model does not describe.
- `HexCodec.HexDecode`: bytes the decoder would write beyond its region are dropped. The session field causes such a write whenever the session length is odd and the first nibble lands one byte past the region. That happens with `S001` and any session info starting with a hex digit, which then succeeds. It also happens with any odd length of 3 or more and session info of a single hex digit, such as `S003` with `A`, which then fails with 0x1A at the NUL (ocra.cpp:326-328 and 368-384). The stray byte lands in the timestamp bytes or past the end of the buffer.
- Session info shorter than the session length is read past its end into the NUL, so it always fails (`Message.ShortSessionFails`). The left-padding offset the library computes for it therefore never matters for the result.
- `memcpy`, raw pointers and the `std::vector` buffer are modelled as sequences. The 32-bit `int` arithmetic of truncation never overflows, since the code is below 2^31.
- `Ascii.ByteOf` takes a character's code modulo 256. A C++ `std::string` holds 8-bit `char`s, so characters above 255 do not occur in the library, and the model does not describe them.
- The SHA and HMAC test mocks, `main.cpp` and the test programs are not part of this model.
- C `atoi` is modelled for the leading white space, signs and digits the 2- and 3-character bodies can hold. C `atoi` overflow cannot arise on such short bodies.

Where the library's code and the usual description of the format differ, the model follows the code:

- The counter token need only start with `C` (`CX` is accepted).
- The challenge, session and timestamp numbers go through `atoi`, so `QA 8` is accepted as `QA08`. Rendering a validated suite is therefore canonical rather than input-preserving (`SuiteText.ChallengeNotPreserved`). The round trip holds for texts that render canonically (`SuiteText.CanonicalFixpoint`).
- The message starts with the stored upper-cased suite text, not a re-rendered one.
- A question longer than the suite's challenge length is not rejected.
- Session info is read for exactly `sessionLength` characters, not `2 * sessionLength` hex digits. At most half of the session bytes therefore carry data (`Message.SessionReadsPrefix`), and short info is refused rather than zero-padded.

## Findings

| source | as written | input that shows it | evidently intended | confidence | as-written member | corrected member |
|---|---|---|---|---|---|---|
| src/ocra/ocra.cpp:209-215 | with 0 digits the loop never runs, `i` stays -1, and `result.substr(i)` throws `out_of_range` | any digest, suite `HOTP-SHA1-0` | the whole 31-bit code as unpadded decimal text | not executed | Truncation.TruncateSpec | Truncation.TruncateCorrectedSpec |
| src/ocra/ocra.cpp:201-206 | the modulus for 10 digits is `INT32_MAX`, not 10^10 | a digest with offset 0 and bytes 7F FF FF FF: the code 2147483647 prints as `0000000000` | a ten-digit password holding the whole code | not executed | Truncation.DigitsTenWraps | Truncation.TenDigitsKeepCode |
| src/ocra/ocra.cpp:273-274 | the converted numeric question is passed with `questionHex.length()`, always 65, so the decoder reads the NUL padding and every numeric question fails with 0x1A | any all-digit question, such as `00000000` | decode only the hex digits produced | not executed | Message.QuestionFieldsAgree | Message.NumericAsHex |
| src/ocra/ocra.cpp:525 | the hour bound `time < 0 && 48 < time` can never hold | `T99H` is accepted with 99 hours (`T-1H` is not an example: the data input is split on '-', and `Validate` rejects it with 0x0D) | reject hour values above 48 | not executed | SuiteParser.HoursBoundNotEnforced | SuiteParser.ValidateCorrectedAgrees |
