# BOE round-trip harness: hex payload text, Base16 rendering, verdict

This project models the text logic of the BOE codec's round-trip test harness
(`codecs/C1/BOE/2_11_68/test.cpp`). The harness reads a hex payload text and
normalises it. It hands the text to the BOE decoder, re-encodes the decoded
message into a byte buffer, and prints that buffer as upper-case hex. It then
reports whether the printed text equals the normalised payload text.

The BOE decoder, encoder, message definitions and `Status` type are declared
in headers that are not part of this model. The model states what the
harness itself does around them:

- `Payload` covers payload normalisation. Three in-place erase-remove passes
  drop every line feed, carriage return and space. An odd remaining length is
  an error. Otherwise the characters come back unchanged, still as text.
  The passes are proved equal to a one-pass reference filter. The filter is
  proved to drop exactly those three characters, to keep the order and count
  of everything else (tabs included), and to be idempotent.
- `StreamFormat` covers how one `char` reaches the output stream. A `char`
  (modelled as signed 8-bit; where the platform's `char` is unsigned the
  rendering is the same, because the cast maps the 256 values one to one onto
  0..255) goes through `static_cast<unsigned char>` and is written in
  shortest upper-case hex, right-justified to width 2 with `'0'`. This is
  proved to be the one-byte Base16 encoding.
- `Base16` is upper-case Base16 as defined in section 8 of RFC 4648. It has
  an encoder and a decoder that accepts either case. Both round trips are
  proved, and text equals an encoding exactly when it is upper-case hex that
  decodes to those bytes.
- `Harness` covers `convertBinaryToHex` as a loop, checked against
  `Base16.Encode`. It also covers `processPayload`, with a buffer of half the
  payload text's length that is always rendered in full, the string-equality
  verdict, and `main`'s three steps chained together.

The encoder is modelled as a parameter. `selector` says which branch of the
message-type dispatch ran. `written` holds the bytes the encoder put at the
front of the zero-filled destination buffer. When neither message type
matches, the encoder never runs and the buffer stays zero.

Two facts about the source shape the model. The decoder is handed the
normalised hex TEXT (`test.cpp:71`), not bytes decoded from it. The verdict
(`test.cpp:110`) is exact string equality, so a payload written with
lower-case digits is always reported unequal, even when it describes the same
bytes.

## Model

| member | source | states |
|---|---|---|
| Base16.HexDigit | codecs/C1/BOE/2_11_68/test.cpp:59 | each nibble renders as an upper-case hex digit that reads back as the same nibble |
| Base16.HexDigitIsAlphabet | codecs/C1/BOE/2_11_68/test.cpp:59 | the digit rendered for nibble n is entry n of the RFC 4648 section 8 alphabet `0-9A-F` |
| Base16.Encode | codecs/C1/BOE/2_11_68/test.cpp:57-60 | the encoding of n bytes has exactly 2n characters, so no bytes give the empty text |
| Base16.EncodeAt | codecs/C1/BOE/2_11_68/test.cpp:59 | characters 2i and 2i+1 are the high and the low nibble of byte i, zero-padded to two digits |
| Base16.EncodeIsUpperHex | codecs/C1/BOE/2_11_68/test.cpp:59 | every output character is in `0-9A-F`, never a lower-case letter |
| Base16.DecodeEncode | codecs/C1/BOE/2_11_68/test.cpp:59 | decoding the rendered text gives back exactly the rendered bytes |
| Base16.EncodeDecode | codecs/C1/BOE/2_11_68/test.cpp:59 | upper-case hex text that decodes to some bytes is exactly the rendering of those bytes |
| Base16.EncodedIff | codecs/C1/BOE/2_11_68/test.cpp:59 | text equals the rendering of some bytes if and only if it is upper-case hex that decodes to them |
| Base16.DecodeSucceedsIff | codecs/C1/BOE/2_11_68/test.cpp:45 | the companion decoder (no source line implements it) reads text as bytes if and only if it has even length and only hex digits of either case; the parity test at line 45 is the first half only and lets through even-length text such as `zz` |
| StreamFormat.AsUnsigned | codecs/C1/BOE/2_11_68/test.cpp:59 | the cast gives the value in 0..255 that is congruent to the char modulo 256 |
| StreamFormat.AsUnsignedHighHalf | codecs/C1/BOE/2_11_68/test.cpp:59 | exactly the negative chars map to 0x80..0xFF, and non-negative chars keep their value, so no sign extension |
| StreamFormat.AsUnsignedInjective | codecs/C1/BOE/2_11_68/test.cpp:59 | two chars give the same unsigned value if and only if they are the same char |
| StreamFormat.HexNumeral | codecs/C1/BOE/2_11_68/test.cpp:59 | `std::hex` output has at least one digit, and exactly one for values below 16 |
| StreamFormat.PadLeft | codecs/C1/BOE/2_11_68/test.cpp:59 | `setw`/`setfill` output has the field width or the text's length, whichever is larger, with the text at the right and fill characters before it |
| StreamFormat.FormatByte | codecs/C1/BOE/2_11_68/test.cpp:59 | the stream insertion of one element equals the Base16 encoding of its unsigned value |
| StreamFormat.NegativeCharRendersHigh | codecs/C1/BOE/2_11_68/test.cpp:59 | a negative char renders with a first digit of 8..F |
| Payload.RemoveAll | codecs/C1/BOE/2_11_68/test.cpp:40-42 | one erase-remove pass never lengthens the text and leaves no occurrence of the removed character |
| Payload.RemoveAllKeeps | codecs/C1/BOE/2_11_68/test.cpp:40-42 | one erase-remove pass keeps every other character exactly as often as it occurs |
| Payload.RemoveAllIsSubsequence | codecs/C1/BOE/2_11_68/test.cpp:40-42 | one erase-remove pass keeps the remaining characters in their original order |
| Payload.RemoveInPlace | codecs/C1/BOE/2_11_68/test.cpp:40-42 | the in-place compaction leaves the input with the character removed in the array's first k slots, and leaves the array beyond the string untouched |
| Payload.StrippedIsOnePass | codecs/C1/BOE/2_11_68/test.cpp:40-42 | the three passes in the loader's order equal one filter that drops line feed, carriage return and space |
| Payload.KeepHasNoErased | codecs/C1/BOE/2_11_68/test.cpp:40-42 | no line feed, carriage return or space survives the filter |
| Payload.KeepCounts | codecs/C1/BOE/2_11_68/test.cpp:40-42 | each other character, tabs included, occurs as often after the filter as before, and each of the three occurs zero times |
| Payload.KeepIsSubsequence | codecs/C1/BOE/2_11_68/test.cpp:40-42 | the kept characters keep their original relative order |
| Payload.KeepFixpointIff | codecs/C1/BOE/2_11_68/test.cpp:40-42 | the filter leaves a text unchanged if and only if the text holds none of the three characters |
| Payload.StrippedIdempotent | codecs/C1/BOE/2_11_68/test.cpp:40-42 | stripping a second time changes nothing |
| Payload.StrippedFacts | codecs/C1/BOE/2_11_68/test.cpp:40-42 | after the three passes there is no line feed, carriage return or space, every other character keeps its count, and the result is an order-preserving subsequence |
| Payload.ReadHexPayload | codecs/C1/BOE/2_11_68/test.cpp:39-50 | fails with the odd-length error if and only if the stripped text has odd length; otherwise returns the stripped characters exactly, not decoded |
| Harness.ConvertBinaryToHex | codecs/C1/BOE/2_11_68/test.cpp:54-62 | the loop returns the Base16 encoding of the unsigned values of the first `size` elements only, with 2*size characters, all in `0-9A-F`, and the high then low nibble of element i at positions 2i and 2i+1 |
| Harness.EncodedBuffer | codecs/C1/BOE/2_11_68/test.cpp:76-94 | the destination buffer after the encode step has exactly half the payload text's length |
| Harness.ProcessPayload | codecs/C1/BOE/2_11_68/test.cpp:65-99 | renders every byte of a buffer holding half the payload text's length, so the output has the payload's length when that length is even |
| Harness.UnrecognisedRendersZeros | codecs/C1/BOE/2_11_68/test.cpp:77-94 | when neither message type matches, the zero-filled buffer renders as `0` repeated twice per byte |
| Harness.CompareHexStrings | codecs/C1/BOE/2_11_68/test.cpp:102-119 | the verdict is Equal exactly when the two texts are identical, character for character, with no case folding |
| Harness.VerdictMeansSameBytes | codecs/C1/BOE/2_11_68/test.cpp:110 | against re-encoded output, the verdict is Equal if and only if the payload text is upper-case hex that decodes to the encoder's bytes |
| Harness.LowercaseNeverEqual | codecs/C1/BOE/2_11_68/test.cpp:59 | a payload text containing a lower-case hex digit is never reported equal to re-encoded output |
| Harness.RunRoundTrip | codecs/C1/BOE/2_11_68/test.cpp:131-147 | fails if and only if the stripped payload has odd length (with the odd-length error) or the decoder or encoder throws; otherwise reports Equal if and only if the stripped payload is upper-case hex decoding to the encoded buffer's bytes |

## Left out

- Payload.ReadHexPayload: each element of `text` stands for one byte of the file, because the length test at `test.cpp:45` counts bytes. A multi-byte character (a UTF-8 byte-order mark, say) is not modelled as several elements.
- Harness.RunRoundTrip: whether the decoder or the encoder throws is the `codecThrows` parameter; what would make them throw lives in the codec headers.
- Opening and reading the payload file (`test.cpp:29-37`) is I/O. The model starts from the text the file held. So the "cannot open file" error is not modelled.
- The BOE `Decoder` and `Encoder`, `getLoginRequest`, `getNewOrderCross`, `Status::reset`, `Status::updateNextStart` and the values of `MessagesEnum` (`test.cpp:67-94`) live in headers that are not part of this model. The message-type test becomes the `selector` parameter. The encoder's effect becomes the `written` bytes.
- Harness.EncodedBuffer: assumes the encoder writes a prefix of the destination buffer and never writes past its end. The encoder's real write pattern is not visible.
- Timing with `std::chrono` and all console output (`test.cpp:70-74`, `95-96`, `104-118`) are instrumentation only. The verdict's printed wording becomes the `Verdict` value.
- `main`'s argument-count check, `atoi` and the exception catch (`test.cpp:122-152`) are command-line plumbing. The exception becomes the `Failure` of `RunRoundTrip`.
- `#pragma pack(1)` and the `PRECISION` macro (`test.cpp:22-24`) are layout and naming directives with no behaviour.
- Harness.ConvertBinaryToHex: requires `size` to be at most the buffer's length. The source's behaviour beyond that bound is undefined, and its one caller passes the buffer's own size.
- `std::remove` leaves unspecified values between the new and the old end of the string. `Payload.RemoveInPlace` states nothing about those slots, because `erase` discards them.
