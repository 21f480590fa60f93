# UUID codec

A model of a small Go package for 128-bit UUIDs. A UUID is a 16-byte value.
The package builds one from a 16-byte buffer (`FromBytes`). It reads the
8-4-4-4-12 hexadecimal text of section 3 of RFC 4122 (`Parse`), either bare
(36 characters) or in braces (38 characters), in either letter case. It
writes that text (`Format`, `String`), with braces and upper-case letters each
selected by its own flag. It also makes random version-4 identifiers
(`NewUUID`): 16 random bytes, then the version field of section 4.1.3 of
RFC 4122 and the variant field of section 4.1.1 of RFC 4122 stamped on top.

The project has four modules:

- `Hex` (hex.dfy): the hexadecimal text of bytes. This is the effect of the
  `%x` / `%X` verbs on a byte slice and of `hex.DecodeString`. The module proves
  that decoding inverts encoding, and that encoding inverts decoding up to
  letter case.
- `Strings` (strings.dfy): the effect of `strings.Split` with a one-character
  separator and of `strings.Join`. The module proves that joining a split with
  the separator gives the text back.
- `Uuid` (uuid.dfy): the package itself. It covers construction, formatting,
  parsing and version-4 stamping, with the round trips between them.
- `UuidVectors` (uuid_vectors.dfy): the literal identifier
  `6ba7b810-9dad-11d1-80b4-00c04fd430c8` of the package's tests, carried
  through every operation.

Some modelling choices:

- A UUID is a `seq<bv8>` of length 16.
- `FmtFlags` is a `bv64`, standing for Go's `int`. The flag values are
  `None = 0`, `WithBraces = 2` and `UpperCase = 4`. They come from the `iota`
  declaration at uuid.go:38-45.
- Each character of a text stands for one byte of the Go string. This holds
  for ASCII text only; see "## Left out" for what differs beyond it.
- Errors are a datatype that says which check failed: `InvalidLength`,
  `InvalidFormat`, `InvalidHexDigit` or `EntropyUnavailable`.

`Parse` is modelled as written. A 38-character text is refused for its
sentinels only when neither brace is in place. The stricter reading, where
both braces are required, is the separate function `ParseStrict`. The check
at uuid.go:72 exists to require the `{...}` pair, but joining its two `!=`
tests with `&&` lets a text with a single brace through. The model keeps the
code's behaviour and records the difference under Findings.

The random fill of the generator becomes a parameter, `Entropy`. It is either
the bytes the source supplied, or a failure. Stamping is a function
(`StampV4`). It is also a method (`StampInPlace`) that overwrites bytes 8 and 6
of a 16-element array, in the order the source does.

## Model

| member | source | states |
|---|---|---|
| Uuid.FromBytes | uuid.go:53-60 | fails, with a length error, exactly when the buffer is not 16 bytes long; otherwise every byte of the result equals the byte of the buffer at the same index |
| Uuid.HasBraces | uuid.go:116 | the brace test on the flags (bit 1); what it selects is stated by FormatBracesIndependent and FormatIgnoresOtherBits |
| Uuid.IsUpper | uuid.go:112 | the case test on the flags (bit 2); what it selects is stated by FormatCaseIndependent and FormatIgnoresOtherBits |
| Uuid.Fields | uuid.go:120-125 | the `Sprintf` of the slices 0:4, 4:6, 6:8, 8:10 and 10:16 joined by hyphens is 36 characters; its characters are stated by FieldsAt |
| Uuid.Format | uuid.go:105-126 | the text is 38 characters with the brace bit set and 36 without it; with braces it starts with `{` and ends with `}` |
| Uuid.FieldsAt | uuid.go:107-108 | position p of the unbraced text is a hyphen at 8, 13, 18 and 23; every other position holds the digit for hex digit DigitNumber(p) of the identifier, in the requested case |
| Uuid.FieldsDigitAt | uuid.go:120-125 | hex digit k (the high or low nibble of byte k/2) is written at its position DigitIndex(k) of the text |
| Uuid.FieldsPiece | uuid.go:120-125 | each position of the unbraced text falls in one of the five groups for bytes 0-3, 4-5, 6-7, 8-9 and 10-15, or is one of the four hyphens between them |
| Uuid.PieceAt | uuid.go:121-125 | digit o of one group's text is hex digit 2a+o of the identifier, where a is the group's first byte |
| Uuid.FieldsLayout | uuid.go:105-126 | the unbraced text has hyphens at 8, 13, 18 and 23 and nowhere else, and carries hex digit k at DigitIndex(k) |
| Uuid.FormatAt | uuid.go:105-126 | every character of Format(u, flags): the braces when requested, the hyphens, and elsewhere the digit of the corresponding nibble in the case the flags select |
| Uuid.FormatBracesIndependent | uuid.go:116-118 | setting the brace bit only wraps the same text in `{` and `}`, whatever the other bits are |
| Uuid.FormatCaseIndependent | uuid.go:111-114 | setting the upper-case bit gives a text of the same length with no lower-case letter, which lower-cases to the text without that bit |
| Uuid.FormatIgnoresOtherBits | uuid.go:112-116 | only the WithBraces and UpperCase bits affect the text |
| Uuid.String | uuid.go:100-102 | the text is canonical: hyphen layout and lower-case hex digits only |
| Uuid.FormatCanonical | uuid.go:100-102 | Format with no flags gives the canonical text |
| Uuid.Body | uuid.go:71-76 | the 36 characters parsed after the sentinel stage: a 38-character text is its two sentinel characters around them, a 36-character text is them |
| Uuid.PartsShapeOk | uuid.go:79-84 | the group-length test; groups that pass it join to 32 characters |
| Uuid.ParseBody | uuid.go:77-96 | after the sentinel stage, the only errors are format errors and hex-digit errors |
| Uuid.Parse | uuid.go:65-97 | the result is a length error exactly when the length is neither 36 nor 38, before any other check |
| Uuid.ParseSpec | uuid.go:65-97 | Parse against a check-by-check reference: length error; format error when a 38-character text has neither brace; format error when the hyphens are out of place; hex-digit error when a digit position holds a non-hex character; otherwise the identifier whose byte i is digits 2i and 2i+1 |
| Uuid.ParseBodySpec | uuid.go:77-96 | the split, group-length check, join and hex decoding equal that reference on the 36 inner characters |
| Uuid.ParseBraces | uuid.go:71-76 | a 38-character text is a format error when neither brace is in place; otherwise it parses as its characters 1..36 |
| Uuid.SplitLayout | uuid.go:77-86 | splitting 36 characters on `-` gives five parts of lengths 8, 4, 4, 4, 12 exactly when the hyphens are at 8, 13, 18, 23 and nowhere else; the parts are then the runs between them |
| Uuid.LayoutOfSplit | uuid.go:79-86 | parts of lengths 8, 4, 4, 4, 12 force the hyphen layout |
| Uuid.SplitOfLayout | uuid.go:77 | the hyphen layout splits into the five groups |
| Uuid.GroupOfSplit | uuid.go:77 | when the first part of a split has length len and more parts follow, a hyphen sits at len and none before it |
| Uuid.SplitGroup | uuid.go:77 | a group that ends at a hyphen is the first part of the split, and the rest of the split is the split of what follows the hyphen |
| Uuid.JoinedDigitsAt | uuid.go:88 | joining the five groups puts digit k of the text at position k |
| Uuid.ParseHyphens | uuid.go:77-86 | after the length and sentinel checks, Parse gives a format error exactly when the hyphen layout is broken |
| Uuid.ParseDigits | uuid.go:88-96 | Parse succeeds exactly when length, sentinels and hyphens pass and all 32 digit positions hold hex digits of either case; byte i then has the values of digits 2i and 2i+1 as its high and low nibbles |
| Uuid.FieldsValue | uuid.go:120-125 | the digits of the unbraced text are hex digits and read back as the identifier |
| Uuid.FieldsDigitsHex | uuid.go:120-125 | every digit position of the unbraced text holds a hex digit |
| Uuid.FieldsByteAt | uuid.go:120-125 | digits 2i and 2i+1 of the text read back as byte i |
| Uuid.ParseFormat | uuid.go:65-126 | Parse of Format(u, flags) is u for every flag setting, and so is the strict reading |
| Uuid.ParseString | uuid.go:100-102 | Parse(String(u)) == u for every u |
| Uuid.StringOfParse | uuid.go:65-102 | whatever Parse accepts, String of the result is the 36 inner characters with letters lower-cased |
| Uuid.DigitsValueAt | uuid.go:88-102 | each position of String(DigitsValue(t)) is the lower-cased character of t there |
| Uuid.DigitsNibble | uuid.go:88-96 | hex digit k of the decoded identifier is the value of the character at DigitIndex(k) |
| Uuid.StringOfParseCanonical | uuid.go:65-102 | a canonical text parses, and String gives it back unchanged |
| Uuid.ParseStrict | uuid.go:71-76 | the sentinel check with both braces required: length errors as in Parse, and an accepted 38-character text has both braces |
| Uuid.ParseStrictRequiresBraces | uuid.go:71-76 | the strict reading accepts exactly what Parse accepts with both braces in place, with the same result |
| Uuid.ParseAcceptsSingleBrace | uuid.go:72 | Parse accepts `{` + String(u) + c for any closing character c other than `}`, and returns u; the strict reading refuses it |
| Uuid.StampV4 | uuid.go:136-137 | the result is version 4 with variant 10; the low nibble of byte 6, the low six bits of byte 8 and the other fourteen bytes are kept |
| Uuid.StampFixesVersion4 | uuid.go:136-137 | stamping leaves an identifier unchanged exactly when it is already version 4 with variant 10, so stamping twice is stamping once |
| Uuid.StampInPlace | uuid.go:136-137 | the two masked writes to bytes 8 and 6 of the array leave it holding StampV4 of its old contents |
| Uuid.GenerateV4 | uuid.go:127-139 | an entropy error exactly when the source fails or supplies fewer than 16 bytes; otherwise StampV4 of the first 16 bytes, which is version 4 |
| Uuid.NewUUID | uuid.go:48-50 | the generator's outcome: an error exactly when the entropy read fails, otherwise a version-4 identifier |
| Uuid.DigitIndex | uuid.go:107 | the text position of hex digit k is below 36 and is not a hyphen position |
| Uuid.DigitNumber | uuid.go:107 | the digit number of a non-hyphen position maps back to that position |
| Uuid.DigitNumberIndex | uuid.go:107 | DigitNumber inverts DigitIndex |
| Hex.Encode | uuid.go:107-108 | the `%x` / `%X` text of a byte slice has two characters per byte |
| Hex.EncodeAt | uuid.go:107-108 | characters 2i and 2i+1 are the high and low nibble of byte i, in the requested case |
| Hex.EncodeCons | uuid.go:107-108 | the text of a non-empty slice is the two digits of its first byte followed by the text of the rest |
| Hex.Decode | uuid.go:89 | a successful `hex.DecodeString` gives one byte per two characters |
| Hex.DecodeDefined | uuid.go:89-93 | decoding succeeds exactly on even-length text made only of hex digits |
| Hex.DecodeAt | uuid.go:89 | byte i of a successful decoding is the byte written by characters 2i and 2i+1 |
| Hex.DecodeEncode | uuid.go:89 | decoding inverts encoding, in either letter case |
| Hex.EncodeDecode | uuid.go:89 | lower-case encoding inverts decoding up to letter case |
| Hex.Val | uuid.go:89 | a hex digit has a value below 16, below 10 exactly for decimal digits |
| Hex.Digit | uuid.go:107-108 | the digit written for a nibble is a hex digit of that value, with letters in the requested case |
| Hex.ByteOf | uuid.go:89 | the byte for two hex digits has their values as its high and low nibbles |
| Hex.ByteOfDigits | uuid.go:89 | the two digits written for a byte read back as that byte |
| Hex.DigitOfVal | uuid.go:89 | re-writing a digit in lower case lower-cases it |
| Strings.IndexOf | uuid.go:77 | the first occurrence of the separator: it is there, and not before |
| Strings.Split | uuid.go:77 | `strings.Split` always gives at least one part |
| Strings.SplitPiecesLackSeparator | uuid.go:77 | no part of a split contains the separator |
| Strings.Join | uuid.go:88 | `strings.Join` of no parts is empty |
| Strings.JoinSplit | uuid.go:77-88 | joining the parts of a split with the separator gives back the text |
| Strings.SplitFront | uuid.go:77 | a split into several parts: the first ends at the first separator, the rest is the split of what follows |
| Strings.SplitSingle | uuid.go:77 | a split into one part means there is no separator, and the part is the text |
| Strings.SplitNoSeparator | uuid.go:77 | a text without the separator splits into itself |
| Strings.SplitAtFirst | uuid.go:77 | a split at a known first separator |
| Strings.JoinFive | uuid.go:88 | joining five parts with the empty separator concatenates them |
| UuidVectors.FromBytesVector | uuid_test.go:30 | FromBytes keeps the test buffer |
| UuidVectors.FormatVectors | uuid_test.go:98-135 | the test identifier renders as the bare lower-case text, the braced text, the upper-case text and the braced upper-case text |
| UuidVectors.ParseVectors | uuid_test.go:58-78 | the bare, braced and upper-case texts all parse to the test bytes |
| UuidVectors.SingleBraceVector | uuid.go:72 | the test text with `{` in front and `]` at the end parses as written and is refused by the strict reading |
| UuidVectors.LengthVectors | uuid.go:67-69 | texts of 35 and 37 characters get the length error |
| UuidVectors.EncodeDigits | uuid.go:107-108 | the hex text equals the byte-by-byte spelling used for the vectors |

## Left out

- The secure random source (`crypto/rand.Read`, uuid.go:131-133). This is a foreign, nondeterministic call. Its outcome is the `Entropy` parameter of `GenerateV4` and `NewUUID`: either the bytes it supplied or a failure. A source that supplies fewer than 16 bytes counts as a failure, the same as Go's `rand.Read`, which fails on a short read.
- The text of Go's error messages (uuid.go:56, 68, 73, 85, 132). Only which check failed is kept.
- Hex error kinds. `hex.DecodeString` can return an invalid-byte error or a length error. Both map to `InvalidHexDigit`. The joined text always has 32 characters here, so only the invalid-byte case can happen.
- Uuid.Parse: a text is a sequence of Unicode characters, while Go's `len` and indexing count bytes. A 38-character text with a valid 36-character body, one brace in place and a non-ASCII character at the other sentinel position (for example `"é" + body + "}"`) parses in the model, but its UTF-8 encoding is at least 39 bytes, so Go returns the length error. A Go string that is not valid UTF-8, such as the 38 bytes `"\x80" + body + "}"`, is accepted by Go, as the model accepts U+0080 in that position. Other texts holding a non-ASCII character are refused by both, though the error kind can differ.
- Library internals. The code of `fmt.Sprintf`, `hex.DecodeString`, `strings.Split` and `strings.Join` is not part of this model; only their effect on these inputs is stated.
- The width modifiers in the format strings (`%08x`, `%04x`, `%12x`). Each byte slice already prints to exactly that many digits, so the padding never applies and is not modelled.
- `copy` into the result array (uuid.go:58, 95). This is a copy of a 16-byte sequence, so the model returns the sequence itself. Value semantics make the copy independent of the caller's buffer.
- Uuid.NewUUID: states only the error condition and the version-4 property. `GenerateV4` states the full result.
- The tests' benchmarks (uuid_test.go:164-214) and the non-zero check on a random identifier (uuid_test.go:32-45). The first is timing and the second depends on the random source.

## Findings

| source | as written | input that shows it | evidently intended | confidence | as-written member | corrected member |
|---|---|---|---|---|---|---|
| uuid.go:72 | a 38-character text is refused only when `value[0] != '{'` and `value[37] != '}'` both hold, so one brace is enough | `{6ba7b810-9dad-11d1-80b4-00c04fd430c8]` parses to the identifier | refuse the text when either brace is missing (`\|\|`) | not executed | Uuid.ParseAcceptsSingleBrace | Uuid.ParseStrictRequiresBraces |
