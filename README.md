# eos_utils.c in Dafny

A model of the encoders and the decoder in `src/eos_utils.c`, part of the
firmware of a hardware signing application. The model covers four routines:

- `buffer_to_encoded_base58` renders a byte string as Bitcoin-alphabet Base58 text.
- `decodeTag` and `tlvTryDecode` read the identifier and length of a DER
  OCTET STRING header from a buffer that may still be arriving.
- `array_hexstr` writes upper-case hex.
- `i64toa` writes a signed 64-bit decimal.

Files, one module each:

- `bytes.dfy` (`Bytes`): the C integer types (`uint8`, `uint16`, `uint32`,
  `int64`), powers, the big-endian value of a byte string and its minimal byte
  string, and the `Option` type the reference decoders and parsers return.
- `base58.dfy` (`Base58`): the alphabet and the specification `Encode`, an
  independent reference decoder `Decode`, and the round trip between them.
  `BufferToEncodedBase58` follows the C function loop by loop over the same two
  164-byte scratch arrays: the zero count, the long division by 58, the skip of
  leading '1' digits, the prepended '1's and the final copy. It is proved to
  write exactly `Encode` of its input, or to fail with the C function's two
  `THROW`s (as `Err` values), leaving `out` untouched.
- `tlv.dfy` (`Tlv`): `DecodeTag` and `TlvTryDecode`. The method returns
  `Complete(length) | Incomplete | Invalid`; together these stand for the
  return value, `*valid` and `*fieldLenght`. The method is proved to follow
  the outcome table `Expected`, which states the code as written. Beside it sit
  `DecodeHeader`, the decoder that sections 8.1.3.4 to 8.1.3.6 of ITU-T X.690
  call for, and a header encoder it inverts.
- `format.dfy` (`Format`): `ArrayHexstr` and `I64ToA` over caller buffers,
  each proved to write its specification text (`Hex`, `I64Text`) followed by a
  NUL and to change nothing after it. Reference parsers (`UnHex`,
  `ParseSigned`) read both texts back.

The decoder is meant to read DER (src/eos_utils.c:98-102), and DER's long form
puts the 1 to 4 length bytes after the length-form byte, so `[0x04, 0x81, 0x80]`
stands for 128. The code decodes it to 129 and accepts a count of 0. The
comments on the 5-byte header at src/eos_utils.c:106-109 and 132-134 describe
the code's own reading: one tag byte, then up to four length bytes counted from
the form byte on. X.690's reading of a count of 4 needs six. The model follows
the code (`Expected`, `TlvTryDecode`), and the X.690 reading is `DecodeHeader`
(see Findings).

## Model

| member | source | states |
|---|---|---|
| Base58.AlphabetAscending | src/eos_utils.c:5-9 | `BASE58ALPHABET` has 58 characters in strictly ascending order |
| Base58.AlphabetDistinct | src/eos_utils.c:5-9 | no character of the alphabet stands for two digit values |
| Base58.DigitOfAlphabet | src/eos_utils.c:5-9 | the reference decoder maps the character written for digit x back to x |
| Base58.DigitsOfSpell | src/eos_utils.c:41 | reading back the characters written for a digit sequence gives that sequence |
| Base58.Value58Front | src/eos_utils.c:41 | the digit written first is the most significant: its weight is 58 to the number of digits after it |
| Base58.Value58OfDigits | src/eos_utils.c:28-42 | the base-58 digits of n have value n, are empty exactly for 0, and never start with digit 0 |
| Base58.DigitsOfValue58 | src/eos_utils.c:28-42 | a digit sequence without a leading 0 is the only such spelling of its value |
| Base58.DropZeroDigit | src/eos_utils.c:43-45 | a leading '1' (digit 0) adds nothing to the value, so skipping it keeps the number |
| Base58.DigitCountBound | src/eos_utils.c:27 | a value of at least 58^k and below 256^m has k < 2m, so its leading digit is followed by fewer than 2m others |
| Base58.DigitsLength | src/eos_utils.c:27 | a value of m bytes has at most 2m base-58 digits, so `j = 2 * length` leaves room for them |
| Base58.LeadingZerosSpec | src/eos_utils.c:24-26 | the zero count is z exactly when the input starts with z zero bytes and then a nonzero byte or the end |
| Base58.LeadingOnesSpec | src/eos_utils.c:43-48 | the count of leading '1's is z exactly when the text starts with z '1's and then another character or the end |
| Base58.EncodeShape | src/eos_utils.c:43-48 | the text starts with exactly one '1' per leading zero byte, and every character is from the alphabet |
| Base58.EncodeZeros | src/eos_utils.c:24-27 | the empty input gives the empty text; n zero bytes give n '1's |
| Base58.DigitOrderExample | src/eos_utils.c:41 | digits come most significant first: 58 is written "21" |
| Base58.EncodeLength | src/eos_utils.c:27-49 | the text is at most 2 * length characters minus one per leading zero byte |
| Base58.DecodeEncoded | src/eos_utils.c:12-55 | decoding the text gives the zero bytes and then the minimal bytes of the remaining value |
| Base58.ZerosThenMinimal | src/eos_utils.c:24-26 | the leading zero bytes and the minimal bytes of the rest's value rebuild the input |
| Base58.RoundTrip | src/eos_utils.c:12-55 | the reference decoder recovers every input, leading zero bytes included |
| Base58.EncodeInjective | src/eos_utils.c:12-55 | two inputs with the same text are equal |
| Base58.CountLeadingZeros | src/eos_utils.c:24-26 | the first loop stops at the number of leading zero bytes, on a nonzero byte or the end |
| Base58.QuotientByte | src/eos_utils.c:33-35 | `remainder * 256 + digit256` is at most 14847, so it fits the `unsigned short`, and its quotient by 58 fits the byte it is stored in |
| Base58.DivStep | src/eos_utils.c:33-36 | one step of the inner loop keeps dividend = quotient * 58 + remainder as one more byte joins |
| Base58.AtMostOneNewZero | src/eos_utils.c:38-40 | a pass over a dividend starting with a nonzero byte leaves at most one new leading zero byte, so one `++startAt` suffices |
| Base58.DivMod58 | src/eos_utils.c:30-37 | the inner loop replaces `tmp[startAt..length)` by its quotient by 58, returns the remainder (below 58) and changes no other byte |
| Base58.PutDigit | src/eos_utils.c:41 | `buffer[--j]` puts the remainder's character in front of the digits already written and changes nothing else |
| Base58.DivisionPass | src/eos_utils.c:30-41 | one turn of the division loop: the value becomes quotient * 58 + remainder, `startAt` moves to the next nonzero byte over the zero bytes it passes, the remainder's character is written at `j - 1`, and no other byte of `tmp` outside `[startAt, length)` or of `buffer` changes |
| Base58.AfterPass | src/eos_utils.c:38-40 | a pass makes the value smaller (the loop terminates); a new leading zero byte carries no value and is followed by a nonzero byte |
| Base58.DigitsStep | src/eos_utils.c:29-42 | a pass moves the last base-58 digit of the remaining value to the front of the digits written |
| Base58.DivideOut | src/eos_utils.c:27-42 | the division loop writes exactly the base-58 digits of the value of `tmp[zeroCount..length)`, ending at `2 * length`, and no more than 2 * (length - zeroCount) of them; it leaves `tmp[zeroCount..length)` all zero and changes nothing else in either array |
| Base58.EncodeFromParts | src/eos_utils.c:43-48 | '1's for the zero bytes followed by the digits left after the skip are the text `Encode` specifies |
| Base58.SkipOnes | src/eos_utils.c:43-45 | the skip loop drops only leading '1' digits, keeps the value, and stops on a digit other than '1' or at the end |
| Base58.PrependOnes | src/eos_utils.c:46-48 | the last loop puts exactly `zeroCount` '1's in front of the digits and changes nothing else in `buffer` |
| Base58.MemMove | src/eos_utils.c:53 | `os_memmove` copies `n` elements from `src + from` and leaves the rest of `dst` as it was |
| Base58.StripAndPrepend | src/eos_utils.c:43-48 | the last two loops leave a digit string of the same value without a leading '1', preceded by exactly `zeroCount` '1's, and change nothing outside `[start, end)` |
| Base58.EncodeScratch | src/eos_utils.c:15-48 | after the three loops `buffer[j..2 * length)` holds `Encode` of the input |
| Base58.BufferToEncodedBase58 | src/eos_utils.c:12-55 | `length > 164` fails with INVALID_PARAMETER and a text longer than `maxoutlen` with EXCEPTION_OVERFLOW, both leaving `out` untouched; otherwise `out` starts with `Encode(input)`, the rest of `out` is unchanged, and the text's length is returned |
| Tlv.DecodeTag | src/eos_utils.c:92-96 | class, constructed flag and tag number add up to the byte and each lies in its own bits (class a multiple of 64 up to 0xC0, flag 0 or 0x20, number below 32) |
| Tlv.DecodeTagUnique | src/eos_utils.c:92-96 | those are the only fields with that property: the split is exactly what the masks give |
| Tlv.LengthValue | src/eos_utils.c:144-147 | at most four length bytes hold a `uint32_t` equal to their big-endian value |
| Tlv.AccumulateStep | src/eos_utils.c:145-147 | shifting a byte into fewer than four accumulated bytes is the big-endian value of one byte more and stays below 2^32 |
| Tlv.TlvTryDecode | src/eos_utils.c:110-155 | the decoder returns exactly the outcome of the table `Expected` for the code as written |
| Tlv.OutcomeTable | src/eos_utils.c:112-154 | a tag number other than 4 is invalid; with tag 4, fewer than 2 bytes is incomplete, a length-form byte above 0x84 is invalid, and a long form waits exactly while its count is at least `bufferLength`; the function returns true only with `*valid` true, and `*valid` is false exactly for a wrong tag or a count above 4 |
| Tlv.TagClassIgnored | src/eos_utils.c:112-117 | only the five tag-number bits of the identifier byte matter; class and constructed bits do not change the outcome |
| Tlv.ReadsOnlyAvailable | src/eos_utils.c:119-147 | two buffers that agree on the tag byte and on their first `bufferLength` bytes give the same outcome |
| Tlv.StreamingStable | src/eos_utils.c:119-150 | once the outcome is complete or invalid, more bytes of the same stream do not change it |
| Tlv.IncompleteUntilHeaderArrives | src/eos_utils.c:119-142 | with tag 4 the answer is incomplete exactly while fewer than 2 bytes, or in the long form fewer than count + 1 bytes, have arrived |
| Tlv.DecodedLength | src/eos_utils.c:123-151 | a complete answer needs at least 2 bytes; the short form gives the byte itself (at most 127); the long form gives the big-endian value of the count bytes starting at the length-form byte; 0x80 gives 0 |
| Tlv.ShortFormExample | src/eos_utils.c:112-150 | `[0x04, 0x05]` gives 5; tag 0x02 is invalid; one byte is incomplete; 0x85 is invalid |
| Tlv.LongFormOffByOne | src/eos_utils.c:124-147 | `[0x04, 0x81, 0x80]` decodes to 129, and `[0x04, 0x81]` is already complete with 129 |
| Tlv.IndefiniteFormAccepted | src/eos_utils.c:128-147 | the indefinite form `[0x04, 0x80]` is accepted as length 0 |
| Tlv.HeaderRoundTrip | src/eos_utils.c:98-102 | the X.690 decoder gives back the length of every header the minimal encoder writes, whatever follows, and asks for more until the header has arrived |
| Tlv.HeaderRejectsIndefinite | src/eos_utils.c:128-137 | the X.690 decoder rejects the indefinite form 0x80 |
| Tlv.AsWrittenDiffersFromX690 | src/eos_utils.c:124-147 | on the header of a 128-byte string the code answers 129 where X.690 gives 128, and answers complete where X.690 still waits |
| Format.HexAt | src/eos_utils.c:60-65 | byte i is written at positions 2i (high nibble) and 2i + 1 (low nibble) |
| Format.NibbleOfHexDigit | src/eos_utils.c:57-58 | each entry of `hex_digits` reads back as its index |
| Format.HexAlphabet | src/eos_utils.c:57-63 | every character written is an upper-case hex digit |
| Format.HexRoundTrip | src/eos_utils.c:60-67 | the reference hex parser reads back the bytes from the text |
| Format.ArrayHexstr | src/eos_utils.c:60-67 | `strbuf` starts with two hex digits per byte and then a NUL at index `2 * len`; nothing after it changes |
| Format.Decimal | src/eos_utils.c:76-85 | the `do`/`while` loops write at least one digit |
| Format.DecimalRoundTrip | src/eos_utils.c:82-85 | the reference decimal parser reads back the value from its digits |
| Format.DecimalCanonical | src/eos_utils.c:82-85 | the digits start with '0' only for zero, and all are decimal digits |
| Format.DecimalLength | src/eos_utils.c:76-80 | a value below 10^k has at most k digits |
| Format.I64RoundTrip | src/eos_utils.c:69-87 | the reference signed parser reads back every `int64` from its text |
| Format.I64TextExamples | src/eos_utils.c:69-87 | 0 is written "0", -120 is written "-120" |
| Format.I64TextLength | src/eos_utils.c:69-87 | the text of an `int64` is at most 20 characters, so 21 bytes of `b` always suffice |
| Format.CountDigits | src/eos_utils.c:76-80 | the first loop counts exactly the number of digits written |
| Format.DecimalSplit | src/eos_utils.c:82-85 | the first turn of the `do`/`while` writes the last digit, and the loop then writes the significant digits of the quotient |
| Format.PutChar | src/eos_utils.c:83 | `*--p = c` puts `c` in front of the text already written and changes nothing else |
| Format.PutNextDigit | src/eos_utils.c:82-85 | one turn of the second loop keeps the written suffix and moves one digit from the value to the text |
| Format.WriteDigitsBefore | src/eos_utils.c:82-85 | the second loop writes the digits of the value so that they end just before the NUL, and nothing outside them changes |
| Format.WriteUnsigned | src/eos_utils.c:76-85 | after the sign, the digits and then a NUL are written, and nothing before or after them changes |
| Format.I64ToA | src/eos_utils.c:69-87 | `b` starts with '-' for a negative value, then the digits of the magnitude, then a NUL; nothing after the NUL changes; `b` is returned |

## Left out

- Base58.BufferToEncodedBase58: requires `length <= 82` for inputs the guard accepts. For 83 to 164 bytes the guard at line 20 lets the call through, but the first `buffer[--j]` writes at index `2 * length - 1` (at least 165), past the 164-byte `buffer`. From 128 bytes on, `2 * length` also wraps in the `unsigned char j` (lines 17, 27, 41, 49). That undefined behaviour is not modelled.
- Base58.BufferToEncodedBase58: `THROW` is modelled as an `Err` result. The BOLOS exception mechanism (a non-local jump) is not modelled.
- Base58.MemMove: `os_memmove` is modelled as an element-wise copy between two distinct arrays. Overlapping copies do not occur in this function.
- Base58.EncodeLength: proves at most two characters per byte. The tighter bound of about 1.37 characters per byte (log 256 / log 58) is not proved.
- Format.I64ToA: requires `i != INT64_MIN`, because `i *= -1` at line 74 is signed overflow there.
- Format.ArrayHexstr: `bin` is an array of bytes and the pointer step at line 64 is an index increment. The cast through `unsigned int` is platform plumbing.
- Format.ArrayHexstr: reads each byte as unsigned. For a signed `char`, `>> 4` followed by `& 0xF` gives the same bits 7-4.
- Tlv.TlvTryDecode: the caller's promise that `buffer` holds at least `bufferLength` bytes, and at least one byte even when `bufferLength` is 0, is a precondition.
- Tlv.TlvTryDecode: the out-parameters are folded into the returned `Outcome`. The value left in `*fieldLenght` on the false paths is whatever the caller had there and is not modelled.
- Tlv.TlvTryDecode: the masks `byte & 0x80` and `byte & 0x7f` are written as `byte >= 0x80` and `byte % 0x80`, and `(length << 8) | byte` as `length * 256 + byte`. These are equal for the values that reach them.
- The APDU and transport code that calls these routines and consumes their output is not part of this model.

## Findings

| source | as written | input that shows it | evidently intended | confidence | as-written member | corrected member |
|---|---|---|---|---|---|---|
| src/eos_utils.c:124-147 | after `buffer++` the long-form loop reads `count` bytes starting at the length-form byte itself, and the check at line 139 counts that byte as one of the length bytes | `[0x04, 0x81, 0x80]` with `bufferLength` 3 gives 129; `[0x04, 0x81]` with `bufferLength` 2 is already complete with 129 | the length bytes that follow the form byte (ITU-T X.690 section 8.1.3.5): 128, and "need more bytes" at 2 | not executed | Tlv.LongFormOffByOne | Tlv.HeaderRoundTrip |
| src/eos_utils.c:128-147 | a length-form byte of 0x80 (count 0) is accepted as length 0 | `[0x04, 0x80]` with `bufferLength` 2 gives `Complete(0)` | invalid: the indefinite form (ITU-T X.690 section 8.1.3.6) is forbidden in DER | not executed | Tlv.IndefiniteFormAccepted | Tlv.HeaderRejectsIndefinite |

The header comments at src/eos_utils.c:106-109 and 132-134 (a 5-byte buffer:
one tag byte, then up to four length bytes) agree with the code's reading in
the first row, where the form byte is itself the first length byte; they do not
agree with X.690, whose four length bytes follow the form byte.
