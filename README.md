# LSB steganography codec, modelled in Dafny

steganosaurus hides a text message in an image. The message is written into
the lowest binary digit of the pixel channel values, and is read back out
later. The model covers the codec in the four places the repository
implements it:

- the `Steganography` package, with `Encoder` (Steganography/encoder.py) and
  `Decoder` (Steganography/decoder.py) and the full set of typed errors;
- stegClass.py, the same classes with typed errors but no `.png` checks;
- steg.py, module-level functions that skip the ASCII check and raise a bare
  `Exception`;
- utils.py, `getHeaderLength`.

All four share one scheme:

- The message becomes a bit string, one `bin(ord(ch))[2:].zfill(8)` numeral
  per character.
- Its bit count is written as a big-endian header of `headLength` digits in
  front of it. `headLength` is the digit count of `width * height * bands`,
  rounded up to a multiple of `bands`.
- The frame (header then payload) is written one bit per channel, in
  row-major order, with all channels of a pixel before the next pixel. It is
  written only when it fits in the image.
- Decoding reads the header bits back, then that many payload bits, and turns
  each group of 8 digits into a character.

Modules, in dependency order:

- `Binary`: `bin`, `str.zfill` and `int(s, 2)` on digit sequences.
- `Errors`: the exceptions of Steganography/errors.py as a datatype, plus
  `Result`, `Outcome` and `Option`.
- `Utils`: `getHeaderLength`.
- `Raster`: the image as a class over an `array` of channel values, with
  `getpixel`/`putpixel` on it, the coordinate mapping, and the lowest-digit
  operations.
- `Text`: the text/bit conversions. Each is a specification function, and the
  loop that computes it is a method proved against that function.
- `Lsb`: the frame, the embedding and extraction loops, and the round-trip
  lemmas.
- `PackageEncoder`, `PackageDecoder`, `StegClass`, `Steg`: the four front
  ends.
- `BasicTests`: the round trip that basicTests.py checks.

Python's exceptions are values: a `Result` or `Outcome` carries the
`StegError` that the source raises.

Every image operation that writes states the whole new content of the channel
array. It is stated through `CodeImage`: the embedded channels when the frame
fits, and no change at all when it does not. Decoding has no `modifies`
clause, so the verifier checks that it never writes the image.

## Model

| member | source | states |
|---|---|---|
| `Binary.ZFillMeaning` | Steganography/encoder.py:52-53 | `zfill` only puts zero digits in front: the result ends with the original digits, every added digit is 0, and the value is unchanged |
| `Binary.ValueOfBin` | Steganography/decoder.py:74 | reading `bin(n)[2:]` back with `int(·, 2)` gives n, so the header value is the bit count that was written |
| `Binary.BinLength` | utils.py:12-13 | `len(bin(n)[2:])` is a digit count k with n < 2^k and, unless k = 1, 2^(k-1) <= n |
| `Binary.BinLengthIsLeast` | utils.py:12-13 | `rawAmount` is the least k >= 1 with `maxBytes` < 2^k (so `bin(0)` has one digit) |
| `Binary.BinMonotone` | utils.py:12-13 | a larger channel count never has a shorter numeral |
| `Binary.ValueBound` | Steganography/decoder.py:47-49 | k digits read as a number stay below 2^k, so every 8-digit group is a valid `chr` argument below 256 |
| `Binary.ValueInjective` | Steganography/decoder.py:48 | two digit strings of the same length with the same `int(·, 2)` are the same digits |
| `Utils.HeaderLength` | utils.py:1-18 | the header width is a multiple of `len(mode)`; it is at least `rawAmount` and below `rawAmount + len(mode)`; it equals `rawAmount` when that is already a multiple |
| `Utils.HeaderLengthIsLeast` | utils.py:12-18 | the header width is the least multiple of `len(mode)` that has room for all digits of `width * height * len(mode)` |
| `Utils.HeaderLengthMonotone` | utils.py:12-18 | for the same channel count, a larger image never gets a narrower header |
| `Utils.HeaderFitsImage` | utils.py:12-18 | in an image with at least one pixel, the header never exceeds the number of channels |
| `Raster.WithLowBit` | Steganography/encoder.py:89-93 | the new channel value has the frame bit as its lowest digit, keeps every higher digit, stays in 0..255 and moves by at most 1 |
| `Raster.ReplaceLastDigit` | Steganography/encoder.py:89-92 | `int(bin(old)[2:][:-1] + bit, 2)` is exactly the old value with its lowest digit set to `bit` |
| `Raster.LastDigit` | Steganography/decoder.py:72 | `bin(value)[-1]` is the lowest binary digit of the value |
| `Raster.Locate` | Steganography/encoder.py:87-88 | `coordTup = (i // c % w, i // c // w)` names a pixel inside the image, and channel `i % c` of it is flat channel i |
| `Raster.FlatIndex` | Steganography/encoder.py:87-88 | conversely, channel ch of pixel (x, y) is flat channel `(y*w + x)*c + ch`, and the mapping leads back to (x, y, ch) |
| `Raster.Image.constructor` | Steganography/encoder.py:74 | an opened image holds the given channel values, with its width, height and band count |
| `Raster.Image.GetPixel` | Steganography/encoder.py:101 | `getpixel` gives the `bands` channel values of pixel (x, y), which lie inside the array |
| `Raster.Image.PutPixel` | Steganography/encoder.py:103 | `putpixel` replaces the channels of pixel (x, y) and nothing else |
| `Text.MessageToBinary` | Steganography/encoder.py:36-55 | the result is `AsciiBinary(message)`: NonAsciiCharacterError for non-ASCII text, otherwise the conversion of the text |
| `Text.AppendCharBits` | Steganography/encoder.py:49-55 | the conversion loop builds `CharsToBinary(message)`, the characters' zero-filled numerals in order |
| `Text.BinaryToMessage` | Steganography/decoder.py:32-51 | the length error exactly when the length is not a multiple of 8, otherwise one character per group of 8 digits |
| `Text.ReadGroups` | Steganography/decoder.py:45-51 | the stepped decoding loop builds `GroupsToText(binaryStr)` |
| `Text.CharBitsOfByte` | Steganography/encoder.py:52-53 | a code point below 256 becomes exactly 8 digits whose big-endian value is the code point |
| `Text.CharBitsOfWide` | steg.py:22-23 | a code point of 256 or more becomes more than 8 digits, because `zfill` never truncates |
| `Text.CharsToBinaryBlocks` | Steganography/encoder.py:51-53 | for code points below 256 the output has 8 digits per character, and group k is character k's numeral |
| `Text.CharsToBinaryValues` | Steganography/encoder.py:49-55 | group k of the output, read big-endian, is the code point of character k |
| `Text.CharsToBinaryLength` | steg.py:21-23 | every character contributes at least 8 digits, and strictly more in total when some code point is 256 or more |
| `Text.GroupsToTextChars` | Steganography/decoder.py:45-51 | decoding gives `len / 8` characters, and character k is `chr` of digits 8k..8k+7 read big-endian |
| `Text.TextRoundTrip` | Steganography/decoder.py:47-49 | decoding the conversion of a text of code points below 256 gives the text back |
| `Text.BitsRoundTrip` | Steganography/decoder.py:45-51 | every bit string of whole bytes is the conversion of the text it decodes to |
| `Text.ByteCharBits` | Steganography/decoder.py:48-49 | an 8-digit group is the numeral of the character it decodes to |
| `Text.AsciiBinaryMeaning` | Steganography/encoder.py:44-55 | the conversion fails exactly when some code point is 128 or more, with NonAsciiCharacterError; otherwise it has 8 big-endian digits per character and decodes back to the text |
| `Text.ByteTextRoundTripIff` | steg.py:19-45 | without the ASCII check, decoding the conversion gives the text back if and only if every code point is below 256 |
| `Lsb.EmbeddedChannels` | Steganography/encoder.py:86-103 | after embedding, channel k of the frame has frame bit k as its lowest digit and keeps its higher digits; every channel moves by at most 1; channels past the frame are unchanged |
| `Lsb.ReadChannel` | Steganography/encoder.py:87-88 | the pixel `coordTup` names is inside the image and starts at `i - i % c`; the value read is flat channel i |
| `Lsb.PutCollected` | Steganography/encoder.py:95-97 | flushing a complete `newPixel` extends the embedding by one pixel |
| `Lsb.CompletePixel` | Steganography/encoder.py:99-103 | the last, partial pixel takes the collected values, keeps its old values in the remaining channels, and the embedding then covers the whole frame |
| `Lsb.EmbedFrame` | Steganography/encoder.py:83-103 | the embedding loop leaves the channel array equal to `Embedded(old channels, frame)` |
| `Lsb.ReadLowBits` | Steganography/decoder.py:65-81 | a reading loop collects the lowest digits of flat channels start..stop-1, in order |
| `Lsb.EmbedPayload` | Steganography/encoder.py:76-103 | the too-long error exactly when the frame exceeds `width * height * len(mode)`, with no channel written; otherwise the channels become `CodeImage` of the old channels |
| `Lsb.ExtractPayload` | Steganography/decoder.py:63-81 | the two reading loops give `PayloadOf` the image: `intLength` lowest digits after the `headLength` header digits |
| `Lsb.FrameFits` | Steganography/encoder.py:76-81 | the length check fails exactly when header width plus payload length exceeds the channel count; when it passes, the padded header has exactly `headLength` digits and its value is the payload length |
| `Lsb.CodeImageMeaning` | Steganography/encoder.py:80-103 | embedding fails exactly when the frame is too long; otherwise every channel moves by at most 1, keeps its higher digits, and channels past the frame are unchanged |
| `Lsb.CodeThenExtract` | Steganography/decoder.py:65-81 | an image the embedding produced is decodable, and extraction yields exactly the embedded payload |
| `Lsb.EncodeThenDecode` | basicTests.py:40-46 | a text of code points below 256 whose frame fits is embedded, and decoding the image gives the text back |
| `PackageEncoder.Encoder.constructor` | Steganography/encoder.py:25-26 | an encoder is built only with a bit string that is the conversion of its message |
| `PackageEncoder.Encoder.Create` | Steganography/encoder.py:17-26 | `Encoder(message)` fails with NonAsciiCharacterError exactly for non-ASCII text; otherwise the new encoder holds the message and its conversion |
| `PackageEncoder.Encoder.SetMessageAsWritten` | Steganography/encoder.py:31-33 | `setMessage` as written: the message is always replaced; the bit string is replaced only when the conversion succeeds |
| `PackageEncoder.Encoder.SetMessage` | Steganography/encoder.py:31-33 | `setMessage` keeping the invariant: NonAsciiCharacterError exactly for non-ASCII text, leaving the encoder unchanged; otherwise the new message and its conversion |
| `PackageEncoder.StaleBinaryMessage` | Steganography/encoder.py:31-33 | a failed `setMessage` as written leaves an encoder whose bit string is not its message's conversion |
| `PackageEncoder.Encoder.CreateCodeImage` | Steganography/encoder.py:57-107 | NonPngImageError for a given output file not ending in `.png`, with the image untouched; otherwise MessageLengthError or the embedded image, as `CodeImage` says |
| `PackageDecoder.Decoder.constructor` | Steganography/decoder.py:16-23 | a decoder holds the file name it is given |
| `PackageDecoder.Decoder.SetFilename` | Steganography/decoder.py:28-29 | the file name is replaced |
| `PackageDecoder.Decoder.DecodeImage` | Steganography/decoder.py:53-83 | NonPngImageError for a name not ending in `.png`, before the image is read; otherwise the decoded payload, with BinaryStringLengthError for a payload of partial bytes; the image is never written |
| `StegClass.Encoder.constructor` | stegClass.py:21-22 | an encoder is built only with a bit string that is the conversion of its message |
| `StegClass.Encoder.Create` | stegClass.py:14-44 | `Encoder(message)` fails with NonAsciiCharacterError exactly for non-ASCII text; otherwise it holds the message and its conversion |
| `StegClass.Encoder.CreateCodeImage` | stegClass.py:46-88 | MessageLengthError with no channel written when the frame does not fit, otherwise the embedded image; there is no `.png` check |
| `StegClass.Decoder.constructor` | stegClass.py:95-102 | a decoder holds the file name it is given |
| `StegClass.Decoder.DecodeImage` | stegClass.py:126-153 | the decoded payload, with BinaryStringLengthError for a payload of partial bytes; there is no `.png` check |
| `Steg.CreateCodeImage` | steg.py:68-114 | the conversion has no ASCII check; a bare Exception with no channel written when the frame does not fit, otherwise the embedded image |
| `Steg.DecodeImage` | steg.py:117-145 | the decoded payload, with a bare Exception for a payload of partial bytes |
| `Steg.RoundTripIff` | steg.py:12-45 | when the frame fits, decoding the embedded image gives the message back if and only if every code point is below 256 |
| `BasicTests.TestPicture` | basicTests.py:29-53 | for an ASCII message whose frame fits, `setMessage`, `createCodeImage` to a `.png`, `setFilename` and `decodeImage` return the message |

## Left out

- Opening and saving images (`Image.open`, `img.save`) and the file system are not modelled. An image is a `Raster.Image`: width, height, band count and an array of channel values. Encoding changes that array in place instead of writing a new file.
- Only tuple pixels of 8-bit channels are modelled. PIL's `getpixel` returns a bare int for single-band modes such as "L" or "P", and the source then fails when it indexes it. Modes with wider or floating-point channels are also outside the model.
- `os.path.splitext` and the output file name are not modelled. The package's `.png` checks look at an abstract extension instead. Encoding takes `None` when no output file is given, which covers both `None` and the empty string. The returned `outputFile` path is not modelled.
- Reads outside the image during decoding are not modelled. A header may claim more bits than the image holds, and PIL would then raise its own error. The decoders instead require `Decodable`: every channel they read is inside the image.
- steg.py's `getHeaderLength` (steg.py:48-65) is not a separate member. It is the utils.py function line for line, so `Utils.HeaderLength` models both.
- The getters `getMessage` and `getFilename` are not modelled.
- Steganography/errors.py is the `Errors.StegError` datatype rather than a set of exception classes. The error messages are not modelled, except for steg.py's bare `Exception` texts.
- `Lsb.EmbedPayload` and `Text.BinaryToMessage` take the exception to raise as a parameter. That way the package, stegClass.py and steg.py share one loop, and each passes its own error.
- cli.py (argument parsing and file I/O) and lorem.py (random test text) are not modelled. The downloads and directory walk of basicTests.py are left out too; only its round-trip check is modelled, as `BasicTests.TestPicture`.
- The `__main__` demonstration block of steg.py (steg.py:148-187) is not modelled.

## Findings

| source | as written | input that shows it | evidently intended | confidence | as-written member | corrected member |
|---|---|---|---|---|---|---|
| Steganography/encoder.py:31-33 | `setMessage` stores the new message before `messageToBinary` can raise NonAsciiCharacterError. After the error, the encoder holds the new message but the old message's bit string. | An encoder made with "a", then `setMessage("é")`: the error is raised, and `message` is "é" while `binaryMessage` is still the numeral of "a". A later `createCodeImage` hides "a". | A rejected message leaves the encoder unchanged, so `binaryMessage` is always the conversion of `message`, as `__init__` sets it. | not executed | `PackageEncoder.StaleBinaryMessage` | `PackageEncoder.Encoder.SetMessage` |
