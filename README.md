# Roland VR-6HD protocol codec, modelled in Dafny

This project models the protocol codec of `roland-rs` (`core/src/lib.rs`). The codec speaks the ASCII command grammar of the Roland VR-6HD video switcher over LAN or RS-232. It has three parts:

- **Addresses.** A SysEx parameter address is three bytes.
  - `Address::from_hex` reads exactly six hex digits of either case.
  - `to_hex` and `write_hex` print six upper-case digits.
  - They rest on the helpers `parse_hex_byte` and `write_hex_byte`.
- **Commands.**
  - A `Command` is a parameter write (`DTH:AAAAAA,VV;`), a parameter read (`RQH:AAAAAA,SSSSSS;`) or a version request (`VER;`).
  - `encode` and `encode_with_stx` build the text with `format!`.
  - `write`, `write_with_stx` and `write_hex_u24` print the same shapes digit by digit into a `fmt::Write` sink.
- **Responses.** `Response::parse` maps any received text to a `Response` or a `RolandError`.
  - It trims the text, then removes one leading STX.
  - It recognises ACK and `ack`, and rejects XON and XOFF.
  - It reads `DTH:`, `VER:` and `ERR:` replies.
  - `parse_decimal_u8` decodes the numeric code of an `ERR:` reply.

How the model is built:

- The code built from expressions is written as functions:
  - `from_hex`, `to_hex`, `encode`, `encode_with_stx` and `parse`.
  - The `{:0wX}` formatter, as `Hex.FormatHex`.
  - `str::trim` and `str::split`.
- The code that works step by step is written as methods proved against those functions:
  - the two accumulator loops `parse_hex_byte` and `parse_decimal_u8`;
  - the sink writers, on a `Sink` class whose `text` field is the buffer written so far.

Modules, one per file:

- `Roland`: integer types, control characters, `RolandError`, `Result`.
- `Hex`: digits, the value of a digit string, `{:0wX}`, `parse_hex_byte`.
- `Writer`: the sink.
- `Addresses`, `Commands` and `Responses`: the three parts above.
- `Codec`: how `parse` treats what `encode` produces.

Text is `seq<char>`, so a Rust byte length is a character count here. The two agree on every input where the Rust code does not panic: no digit, keyword or separator it looks for is outside ASCII. `trim` removes every character with the Unicode White_Space property, as `char::is_whitespace` does.

Two behaviours of the code that are easy to misread:

- `parse` trims first and removes STX afterwards (core/src/lib.rs:273-280). Whitespace just after an STX is therefore kept, and the reply is rejected whatever follows (`Codec.ParseWhitespaceAfterStx`).
- A `VER` field may contain `;`. Only the final character is checked (core/src/lib.rs:317-320).

## Model

| member | source | states |
|---|---|---|
| Hex.DigitValue | core/src/lib.rs:123-127 | the three match arms of `parse_hex_byte` give a value below 16, and a digit counts as upper-case exactly when it is not `a`-`f` |
| Hex.HexChar | core/src/lib.rs:139-149 | the digit `write_hex_byte` picks for a nibble is an upper-case hex digit whose value is that nibble |
| Hex.HexValueBound | core/src/lib.rs:121-130 | `k` digits hold a value below 16^k, so the `u8` accumulator of `parse_hex_byte` never exceeds 255 over two digits |
| Hex.HexValueInjective | core/src/lib.rs:100-102 | upper-case digit strings of one width are equal when their values are equal |
| Hex.HexDigits | core/src/lib.rs:101 | `{:X}` is upper-case digits with the value of `n` and no leading zero |
| Hex.FormatHex | core/src/lib.rs:186-190 | `{:0wX}` is upper-case digits with the value of `n`, exactly `max(w, digits of n)` long, so it is never truncated |
| Hex.FormatHexWidth | core/src/lib.rs:190 | for a width `w` of at least 1, the padded field is exactly `w` digits if and only if `n < 16^w` (at `w = 0` the field is never empty) |
| Hex.FormatHexUnique | core/src/lib.rs:101 | any `w` upper-case digits with value `n` are `{:0wX}` of `n` |
| Hex.FormatHexByte | core/src/lib.rs:136-152 | `{:02X}` of a byte is the digit of its high nibble, then the digit of its low nibble |
| Hex.HexByte | core/src/lib.rs:116-132 | `parse_hex_byte` succeeds exactly on two hex digits of either case, giving 16 times the first digit plus the second; anything else is `InvalidAddress` |
| Hex.ParseHexByte | core/src/lib.rs:116-132 | the length check and the accumulator loop return exactly `HexByte(s)` |
| Addresses.FromHex | core/src/lib.rs:84-95 | succeeds exactly on six hex digits of either case, with high, mid and low taken from character pairs 0-1, 2-3 and 4-5; any other length or character is `InvalidAddress` |
| Addresses.FromHexValue | core/src/lib.rs:84-95 | the accepted text, read as one number, is the address's 24-bit value |
| Addresses.ToHex | core/src/lib.rs:100-102 | `to_hex` is six upper-case digits whose value is the address's 24-bit value |
| Addresses.ByteField | core/src/lib.rs:101 | `{:02X}` of a byte is two digits |
| Addresses.ThreeFields | core/src/lib.rs:101 | three two-digit fields read as one six-digit number, high field first |
| Addresses.HexByteOfFormat | core/src/lib.rs:116-132 | `parse_hex_byte` reads `{:02X}` of a byte back as that byte |
| Addresses.FormatOfHexByte | core/src/lib.rs:116-132 | printing a byte that was read gives the upper-cased input |
| Addresses.FromHexToHex | core/src/lib.rs:84-102 | `from_hex(to_hex(a)) == a` for every address |
| Addresses.ToHexFromHex | core/src/lib.rs:84-102 | `to_hex(from_hex(s))` is `s` upper-cased, for every accepted `s` |
| Addresses.WriteHexByte | core/src/lib.rs:135-153 | the nibble split and the digit choice append `{:02X}` of the byte to the sink |
| Addresses.WriteHex | core/src/lib.rs:108-112 | `write_hex` appends exactly `to_hex(a)` to the sink |
| Addresses.ToHexExample | core/src/lib.rs:381-385 | `to_hex` of 12 34 56 is `123456` |
| Addresses.FromHexExample | core/src/lib.rs:373-379 | `from_hex("123456")` is 12 34 56 |
| Addresses.WriteHexExample | core/src/lib.rs:387-393 | `write_hex` of 12 34 56 into an empty sink leaves `123456` |
| Commands.Encode | core/src/lib.rs:183-195 | every encoding is at least four characters and ends with `;` (the as-written `{:06X}` size field) |
| Commands.EncodeWriteFields | core/src/lib.rs:185-187 | a write request is 14 characters, `DTH:`, the address field, `,`, the value field and `;`, and both fields read back as the address and value |
| Commands.EncodeReadFields | core/src/lib.rs:188-192 | a read request has `RQH:` and the address field, and its size field holds the whole size; the request is 18 characters exactly when the size is below 2^24 |
| Commands.EncodeMasked | core/src/lib.rs:217-224 | the corrected encoding of a read keeps a six-digit size field holding the low 24 bits of the size |
| Commands.WriteAgreesWithEncode | core/src/lib.rs:188-241 | `write` and `encode` print the same text if and only if the command is not a read whose size needs more than 24 bits |
| Commands.WriteHexU24 | core/src/lib.rs:237-241 | the three masked bytes append `{:06X}` of the size reduced to 24 bits |
| Commands.U24Digits | core/src/lib.rs:237-241 | the three two-digit byte fields of the shifted and masked value spell `{:06X}` of its low 24 bits |
| Commands.Low24Bytes | core/src/lib.rs:238-240 | `(v >> 16) & 0xFF`, `(v >> 8) & 0xFF` and `v & 0xFF`, weighted by byte position, give `v` modulo 2^24 |
| Commands.Write | core/src/lib.rs:208-227 | `write` appends exactly `EncodeMasked(c)` to the sink |
| Commands.WriteWithStx | core/src/lib.rs:230-233 | `write_with_stx` appends STX and then exactly what `write` appends |
| Commands.EncodeWriteExample | core/src/lib.rs:395-402 | the write request of the source's test encodes as `DTH:123456,01;` |
| Commands.WriteCommandExample | core/src/lib.rs:404-413 | `write` of that request into an empty sink leaves `DTH:123456,01;` |
| Commands.EncodeReadExample | core/src/lib.rs:415-422 | the one-byte read of the source's test encodes as `RQH:123456,000001;` |
| Commands.EncodeReadSizeOne | core/src/lib.rs:188-192 | a one-byte read of any address has the size field `000001` |
| Commands.EncodeVersionExample | core/src/lib.rs:193-201 | the version request is `VER;`, and with STX it is STX followed by `VER;` |
| Commands.WideSizeField | core/src/lib.rs:190 | `{:06X}` of 2^24 is the seven digits `1000000` |
| Commands.EncodeOverlongSize | core/src/lib.rs:190 | on a read of 2^24 bytes, `encode` prints a seven-digit size field and `write` prints `000000` |
| Responses.TrimStart | core/src/lib.rs:273 | the result is a suffix with no leading whitespace, and everything removed is whitespace |
| Responses.TrimEnd | core/src/lib.rs:273 | the result is a prefix with no trailing whitespace, and everything removed is whitespace |
| Responses.Trim | core/src/lib.rs:273 | `trim` gives a slice of the text, starting where `TrimStart` starts, that neither starts nor ends with whitespace |
| Responses.TrimNoop | core/src/lib.rs:273 | `trim` leaves text that neither starts nor ends with whitespace unchanged |
| Responses.TrimStartWhitespace | core/src/lib.rs:273 | leading whitespace makes no difference to the trimmed start |
| Responses.TrimStartAppend | core/src/lib.rs:273 | once a non-whitespace character is reached, everything after it is kept |
| Responses.TrimEndWhitespace | core/src/lib.rs:273 | trailing whitespace makes no difference to the trimmed end |
| Responses.TrimSurrounding | core/src/lib.rs:273 | `trim(w1 + s + w2) == trim(s)` when `w1` and `w2` are whitespace |
| Responses.FirstIndex | core/src/lib.rs:304 | the first separator is where it is, and nothing before it is a separator |
| Responses.Split | core/src/lib.rs:304 | `split(',')` has one more piece than commas, no piece holds a comma, and joining the pieces with commas gives the text back |
| Responses.SplitNone | core/src/lib.rs:304 | text without a comma is one piece |
| Responses.SplitTwo | core/src/lib.rs:304-308 | `p + "," + v` splits into exactly `[p, v]` when neither field has a comma |
| Responses.DecimalValuePrefix | core/src/lib.rs:355-364 | a prefix of a digit string never has a larger value than the whole string |
| Responses.DecimalValueThree | core/src/lib.rs:355-364 | three digits are read most significant first |
| Responses.DecimalU8 | core/src/lib.rs:354-366 | `parse_decimal_u8` succeeds exactly on strings of decimal digits with a value of at most 255, and then gives that value; anything else is `InvalidResponse` |
| Responses.DecimalU8Digit | core/src/lib.rs:355-364 | one digit is its own value |
| Responses.DecimalU8Bounds | core/src/lib.rs:354-366 | the empty code is 0, `255` is 255 and `256` is `InvalidResponse` |
| Responses.ParseDecimalU8 | core/src/lib.rs:354-366 | the loop with `checked_mul` and `checked_add` returns exactly `DecimalU8(s)` |
| Responses.OverflowIsFinal | core/src/lib.rs:360-362 | once a prefix exceeds 255, the whole string is rejected, so stopping at the first overflow is correct |
| Responses.DeviceError | core/src/lib.rs:339-345 | every code maps to one of the four named errors or to `UnknownError` of a code not among 0, 4, 5 and 6 |
| Responses.ErrorCode | core/src/lib.rs:339-345 | each device error comes from a code, and mapping that code gives the error back |
| Responses.DeviceErrorInverse | core/src/lib.rs:339-345 | the code is recovered from the error it maps to, so the mapping is injective |
| Responses.ParseData | core/src/lib.rs:299-312 | the `DTH` branch gives a data reply, or fails with `InvalidResponse` or `InvalidAddress` |
| Responses.ParseVersion | core/src/lib.rs:315-329 | the `VER` branch gives a version whose fields have no comma, or `InvalidResponse` |
| Responses.ParseError | core/src/lib.rs:332-347 | the `ERR` branch gives a device error, or `InvalidResponse` |
| Responses.Dispatch | core/src/lib.rs:282-349 | the dispatch fails only with `InvalidResponse`, or with `InvalidAddress` when the text opens with `DTH:`; an `ERR` reply carries a device error |
| Responses.Parse | core/src/lib.rs:272-350 | the same guarantees for `parse` as a whole, after trimming and removing STX |
| Responses.ParseIgnoresWhitespace | core/src/lib.rs:273 | whitespace on either side of a reply does not change how it parses |
| Responses.StrippedStxFrame | core/src/lib.rs:273-280 | one leading STX is removed from text without surrounding whitespace, and text not starting with STX is kept |
| Responses.ParseStxFrame | core/src/lib.rs:273-280 | a non-empty reply that neither starts nor ends with whitespace and does not start with STX parses the same with one STX in front |
| Responses.NotShortReply | core/src/lib.rs:282-296 | longer text that does not start with `x` is none of the single-word replies |
| Responses.DispatchData | core/src/lib.rs:299-300 | text opening with `DTH:` is read by the `DTH` branch |
| Responses.DispatchVersion | core/src/lib.rs:315-316 | text opening with `VER:` is read by the `VER` branch |
| Responses.DispatchError | core/src/lib.rs:332-333 | text opening with `ERR:` is read by the `ERR` branch |
| Responses.ParseAcknowledge | core/src/lib.rs:282-285 | the reply is `Acknowledge` if and only if the stripped text is ACK or `ack` |
| Responses.ParseFlowControl | core/src/lib.rs:287-296 | XON, `xon`, XOFF and `xoff` give `InvalidResponse` |
| Responses.ParseUnrecognised | core/src/lib.rs:349 | text that is not an acknowledgement and does not open with `DTH:`, `VER:` or `ERR:` gives `InvalidResponse` |
| Responses.ParseUnterminated | core/src/lib.rs:301-303 | a `DTH`, `VER` or `ERR` reply that does not end with `;` gives `InvalidResponse` |
| Responses.FieldCount | core/src/lib.rs:304-307 | a `DTH` or `VER` body without exactly one comma is rejected with `InvalidResponse` |
| Responses.ParseFieldCount | core/src/lib.rs:304-307 | a `DTH` or `VER` reply whose text does not hold exactly one comma gives `InvalidResponse` |
| Responses.DataContent | core/src/lib.rs:303-311 | a `DTH` body with one comma gives the address and value of its two fields, or `InvalidAddress` |
| Responses.ParseDataFields | core/src/lib.rs:299-311 | when neither `p` nor `v` holds a comma, `DTH:p,v;` succeeds exactly when `p` is an address and `v` a byte, gives their values, and otherwise fails with `InvalidAddress` |
| Responses.ParseDataShape | core/src/lib.rs:299-311 | an accepted data reply is 14 characters, and its two fields read as the address and value returned |
| Responses.VersionContent | core/src/lib.rs:317-328 | a `VER` body gives `Version(p, v)` if and only if it is `p,v;` with no comma in either field |
| Responses.VersionFields | core/src/lib.rs:317-328 | the body `p,v;` gives `Version(p, v)` when neither `p` nor `v` holds a comma |
| Responses.VersionFrame | core/src/lib.rs:317-328 | an accepted body is the two fields around a comma, then `;` |
| Responses.DispatchVersionOnly | core/src/lib.rs:282-349 | only the `VER` branch returns a version |
| Responses.ParseVersionFields | core/src/lib.rs:315-329 | the reply is `Version(p, v)` if and only if the stripped text is `VER:p,v;` with no comma in `p` or `v` |
| Responses.VersionReply | core/src/lib.rs:315-329 | `VER:p,v;` gives `Version(p, v)` when neither `p` nor `v` holds a comma |
| Responses.VersionReplyFrame | core/src/lib.rs:315-329 | a version reply is `VER:`, its two fields around a comma, then `;` |
| Responses.ParseErrorCode | core/src/lib.rs:332-347 | `ERR:d;` succeeds exactly when `d` is a decimal `u8`, gives that code's device error, and otherwise `InvalidResponse` |
| Responses.ParseErrorShape | core/src/lib.rs:332-347 | an accepted error reply is `ERR:`, the decimal code of the error it carries, then `;` |
| Responses.WhitespaceLedNotReply | core/src/lib.rs:282-349 | empty text, or text opening with whitespace, gives `InvalidResponse` |
| Codec.NoCommaInHex | core/src/lib.rs:100-102 | upper-case hex digits contain no comma, so an encoded address or value is one field |
| Codec.EncodeFirst | core/src/lib.rs:183-195 | an encoding opens with `D`, `R` or `V` according to the command |
| Codec.EncodeStripped | core/src/lib.rs:273-280 | trimming and STX removal give back the plain encoding, with or without STX |
| Codec.LetterFrameStripped | core/src/lib.rs:273-280 | text opening with a capital letter and ending with `;` is what `parse` dispatches on, with or without a leading STX |
| Codec.ParseEncodeWrite | core/src/lib.rs:299-311 | `parse(encode(WriteParameter(a, v))) == Data(a, v)` for every address and value |
| Codec.ParseEncodeRead | core/src/lib.rs:282-349 | `parse(encode(ReadParameter(a, n)))` is `InvalidResponse` |
| Codec.ReadRequestNotReply | core/src/lib.rs:282-349 | any non-empty text opening with `R` gives `InvalidResponse` |
| Codec.ParseEncodeRequest | core/src/lib.rs:188-193 | a read request or a version request parses as `InvalidResponse` |
| Codec.VersionRequestNotReply | core/src/lib.rs:315-349 | `VER;` lacks the colon of `VER:` and gives `InvalidResponse` |
| Codec.ParseIgnoresStx | core/src/lib.rs:200-202 | `parse(encode_with_stx(c)) == parse(encode(c))` for every command |
| Codec.ParseDataCanonical | core/src/lib.rs:299-311 | an accepted data reply, upper-cased, is the encoding of the write request with the same address and value |
| Codec.UpperFrame | core/src/lib.rs:186 | upper-casing a `DTH` frame upper-cases its two fields and nothing else |
| Codec.ParseAckExample | core/src/lib.rs:430-434 | the ACK byte parses as `Acknowledge` |
| Codec.ParseDataExample | core/src/lib.rs:436-446 | `DTH:123456,01;` parses as address 12 34 56, printed back as `123456`, with value 1 |
| Codec.ParseVersionReply | core/src/lib.rs:315-329 | `VER:p,v;` parses as `Version(p, v)` when neither field has a comma |
| Codec.ParseVersionExample | core/src/lib.rs:448-458 | `VER:VR-6HD,1.00;` parses as product `VR-6HD`, version `1.00` |
| Codec.ParseErrorReply | core/src/lib.rs:332-347 | `ERR:d;` parses as the device error of `d`, or as `InvalidResponse` when `d` is not a decimal `u8` |
| Codec.ParseDigitErrorCode | core/src/lib.rs:332-347 | a one-digit code parses as that code's device error |
| Codec.ParseErrorExample | core/src/lib.rs:460-466 | `ERR:0;` parses as `SyntaxError` |
| Codec.ParseWhitespaceOutsideStx | core/src/lib.rs:273-280 | any whitespace before the STX or after an STX-framed `ack` is ignored: the reply is `Acknowledge` |
| Codec.ParseWhitespaceAfterStx | core/src/lib.rs:273-280 | for any non-empty whitespace `w` and any text `x`, STX followed by `w` and `x` gives `InvalidResponse`: the whitespace is kept after the STX is removed |

## Left out

- `TelnetClient` is not modelled, nor the `main` functions of the two example programs. They are network I/O with timeouts and sleeps, and command-line printing.
- The `Display` impls (core/src/lib.rs:42-55) are fixed message text only, so they are not modelled.
- The `From` conversions into the client's error type are not modelled. They are thin wrappers.
- Failure of the `fmt::Write` sink is not modelled. The sink is a buffer that cannot fail, as a `String` writer never fails. Every `?` between two writes therefore always continues.
- `Address::new` is not a separate member. It is the constructor of the `Address` datatype.
- `Command::encode_with_stx` has no contract of its own. It is the function `EncodeWithStx`, STX followed by `encode`. Its properties are stated by `Codec.ParseIgnoresStx` and `Commands.EncodeVersionExample`.
- `Responses.StripStx` and `Responses.Stripped` have no contract of their own. They are the one-STX removal and its composition with `Trim` (core/src/lib.rs:273-280). Their properties are stated by `Responses.StrippedStxFrame`, `Responses.TrimSurrounding`, `Responses.TrimNoop`, `Responses.ParseIgnoresWhitespace` and `Codec.ParseWhitespaceAfterStx`.
- `RolandError::InvalidValue` is declared, but no operation of the codec produces it.
- Panics on non-ASCII text are not modelled. Slicing `&hex[0..2]` inside a multibyte character makes `from_hex` panic (for example six bytes of which some belong to one character). The model returns `InvalidAddress` for such text instead: its lengths count characters, so such text is never six digits.
- The lemmas about individual reply shapes are stated on `Responses.Dispatch`, the part of `parse` after trimming and STX removal. `Responses.ParseIgnoresWhitespace`, `Responses.ParseStxFrame` and the `Codec` lemmas connect that text to `parse` itself.

## Findings

| source | as written | input that shows it | evidently intended | confidence | as-written member | corrected member |
|---|---|---|---|---|---|---|
| core/src/lib.rs:189-191 | `encode` formats the read size with `{:06X}`, which pads but never truncates, so a size of 2^24 or more prints seven or eight digits | `ReadParameter { address, size: 0x100_0000 }` encodes with the size field `1000000`; `write` prints `000000` for the same command | the size field is six digits holding 24 bits, as the comment at line 189 says and as `write_hex_u24` (lines 237-241) prints | not executed | Commands.EncodeOverlongSize | Commands.EncodeMasked |
