# str_to_bytes in Dafny

A model of the Rust crate `str_to_bytes`. The crate turns a payload such as
`0xff 0xfa 0b11 89` into the bytes `[0xff, 0xfa, 0x03, 89]`. The payload is
split into shell-style words. Each word is classified as binary (`0b…`),
hexadecimal (`0x…`) or decimal, and converted to bytes. The outputs are
concatenated in word order. `src/formats/str.rs` adds an `ASCII(…)`
marker classifier and parser, which the dispatcher does not call.

The project has one module per source file, plus shared pieces:

- `wrappers.dfy` (`Wrappers`): `Option` and `Result`.
- `digits.dfy` (`Digits`): digit characters, what `u8::from_str_radix`
  computes (`ValueOf`), fixed-width rendering, and the arithmetic lemmas.
- `chunking.dfy` (`Chunking`): the regrouping loop shared by
  `parse_binary` and `parse_hexadecimal`. The digits are cut from the
  left into groups of w (8 or 2), with a short last group, and each group
  is read in its base.
- `binary.dfy` (`Binary`), `hexadecimal.dfy` (`Hexadecimal`) and
  `decimal.dfy` (`Decimal`): each classifier/parser pair.
- `str_ascii.dfy` (`StrAscii`): the `ASCII(…)` marker. Text is a
  sequence of Unicode scalar values, and the parser works on its UTF-8
  bytes, as Rust's `&str` does.
- `str_to_bytes.dfy` (`StrToBytes`): the `str_to_bytes` dispatcher. The
  errors are `Failure` values:
  - `InvalidPayload` (`"Invalid payload"`);
  - `EmptyPayload` (`"Empty payload"`);
  - `DecimalOutOfRange`, the panic of `parse_decimal`'s `expect` on a
    number of 2^64 or more.

Each operation is tied to an independent definition:

- Binary and hexadecimal: a renderer, with a round-trip lemma. For
  binary the round trip also runs the other way: each byte, rendered at
  the width of its group, gives the group back.
- Decimal: an independent reference, `MinimalBytes`, built from the low
  byte up. Its uniqueness lemma pins the output down completely.
- The dispatcher: the left fold it is defined as, with a loop that
  mirrors the Rust `for` loop and is proved equal to it.

Two behaviours of the code are easy to miss:

- The dispatcher tries binary, hexadecimal and decimal only. It never
  calls the `ASCII(…)` parser.
- A word that no classifier accepts is skipped silently. It does not
  fail the payload, and neither does a word like `0b`.

## Model

| member | source | states |
|---|---|---|
| `Binary.IsBinaryShape` | src/formats/binary.rs:15-19 | a token is binary exactly when it is `0b` or `0B` followed by one or more bits |
| `Binary.IsBinaryExamples` | src/formats/binary.rs:11-75 | every verdict the crate's documentation and unit test assert for the classifier: `0b11`, `0B01`, `0B11`, `0b0`, `0b1`, `0b01` and the 28-bit `0b0101010010011010010100101001` accepted; `0b`, `0B`, the empty string and `0b123` rejected |
| `Binary.ParseBinary` | src/formats/binary.rs:35-54 | n bits give ceil(n / 8) bytes, never none |
| `Binary.ParseBinaryAt` | src/formats/binary.rs:39-51 | byte i is the base-2 value of bits 8i up to min(8i + 8, n): groups are cut from the left and a short last group is read as its own value, not padded |
| `Binary.ParseBinaryOneGroup` | src/formats/binary.rs:41-51 | a token of at most eight bits is one byte, the value of its bits |
| `Binary.ParseBinaryTwoGroups` | src/formats/binary.rs:41-51 | nine to sixteen bits are two bytes: the first eight bits, then the rest read alone |
| `Binary.ParseBinaryThree` | src/lib.rs:43 | `0b11`, the third word of the dispatcher's test, is [3] |
| `Binary.ParseBinaryTwoBits` | src/formats/binary.rs:78 | `0b10` is [2] |
| `Binary.ParseBinaryFullByte` | src/formats/binary.rs:82 | `0b11111111` is [0xff] |
| `Binary.ParseBinaryShortLastGroup` | src/formats/binary.rs:85 | `0b000000001` is [0, 1]: the ninth bit is a byte of its own |
| `Binary.ParseBinaryTwoBitTail` | src/formats/binary.rs:86 | `0b1111111100` is [0xff, 0] |
| `Binary.RenderBinary` | src/formats/binary.rs:15-19 | rendering bytes as eight-bit groups behind `0b` gives a token the classifier accepts, of the expected length |
| `Binary.ParseRenderBinary` | src/formats/binary.rs:35-54 | round trip: parsing the eight-bit rendering of any non-empty bytes gives them back |
| `Binary.ReflattenBinary` | src/formats/binary.rs:39-51 | round trip the other way: byte i written back as bits at the width of the group it came from is that group, so no bit is lost and a short last group is not padded |
| `Binary.ParseBinaryAppend` | src/formats/binary.rs:41-51 | when the first digits fill whole bytes, the parse of the joined digits is the two parses concatenated |
| `Hexadecimal.IsHexadecimalShape` | src/formats/hexadecimal.rs:15-19 | a token is hexadecimal exactly when it is `0x` or `0X` followed by one or more hex digits of either case |
| `Hexadecimal.IsHexadecimalExamples` | src/formats/hexadecimal.rs:11-77 | every verdict the crate's documentation and unit test assert for the classifier: `0xAB`, `0Xab`, `0x00`, `0XFF`, `0XFf`, `0xFf`, `0x0`, `0x01`, `0xf` and the 27-digit `0xff01938422749abdef13131fee3` accepted; `0x`, `0X`, the empty string and `13` rejected |
| `Hexadecimal.ParseHexadecimal` | src/formats/hexadecimal.rs:35-54 | d digits give ceil(d / 2) bytes, never none |
| `Hexadecimal.ParseHexadecimalAt` | src/formats/hexadecimal.rs:39-51 | byte i is the base-16 value of digits 2i up to min(2i + 2, d): a lone last digit is read as its own value |
| `Hexadecimal.ParseHexadecimalLower` | src/formats/hexadecimal.rs:16 | lower-casing a token keeps it hexadecimal and does not change its bytes |
| `Hexadecimal.ParseHexadecimalOneGroup` | src/formats/hexadecimal.rs:41-51 | a token of one or two digits is one byte, the value of its digits |
| `Hexadecimal.ParseHexadecimalLoneDigit` | src/formats/hexadecimal.rs:81 | `0x6` is [6] |
| `Hexadecimal.ParseHexadecimalFF` | src/formats/hexadecimal.rs:82 | `0xff` is [0xff] |
| `Hexadecimal.ParseHexadecimalPair` | src/formats/hexadecimal.rs:84 | `0xab` is [0xab] |
| `Hexadecimal.ParseHexadecimalFA` | src/lib.rs:43 | `0xfa`, the second word of the dispatcher's test, is [0xfa] |
| `Hexadecimal.ParseHexadecimalThreeGroups` | src/formats/hexadecimal.rs:41-51 | six digits are three bytes, each 16 times its first digit plus its second |
| `Hexadecimal.ParseHexadecimalThreeBytes` | src/formats/hexadecimal.rs:88 | `0xff00ff` is [255, 0, 255] |
| `Hexadecimal.ParseHexadecimalAbcdef` | src/formats/hexadecimal.rs:89 | `0xabcdef` is [0xab, 0xcd, 0xef] |
| `Hexadecimal.RenderHexadecimal` | src/formats/hexadecimal.rs:15-19 | rendering bytes as two-digit groups behind `0x` gives a token the classifier accepts |
| `Hexadecimal.ParseRenderHexadecimal` | src/formats/hexadecimal.rs:35-54 | round trip: parsing the two-digit rendering of any non-empty bytes gives them back |
| `Hexadecimal.ParseHexadecimalJoin` | src/formats/hexadecimal.rs:41-51 | appending one token's digits to a token with an even number of digits appends the bytes |
| `Hexadecimal.ParseHexadecimalAppend` | src/formats/hexadecimal.rs:41-51 | when the first digits fill whole bytes, the parse of the joined digits is the two parses concatenated |
| `Digits.RenderOfBits` | src/formats/binary.rs:48-51 | a group of bits is the rendering of its own base-2 value at its own width, leading zeros included |
| `Chunking.Chunks` | src/formats/binary.rs:41-46 | the regrouping loop: the groups join back to the digits, each holds 1 to w characters, all but the last exactly w, and there are none only for no digits |
| `Chunking.ChunkCount` | src/formats/hexadecimal.rs:41-46 | the loop makes ceil(n / w) groups |
| `Chunking.ChunkAt` | src/formats/hexadecimal.rs:41-46 | group i is exactly the characters w·i up to min(w·i + w, n) |
| `Chunking.ChunksAppend` | src/formats/binary.rs:41-46 | regrouping a concatenation whose first part fills k whole groups gives the two groupings concatenated |
| `Chunking.GroupValues` | src/formats/binary.rs:48-51 | every group is read as its value in the base, and that value always fits in a byte, so the `expect` on `from_str_radix` cannot fire |
| `Chunking.ParseGroupsCount` | src/formats/hexadecimal.rs:39-51 | the parse has ceil(n / w) bytes, none exactly when there are no digits |
| `Chunking.ParseGroupAt` | src/formats/binary.rs:39-51 | byte i is the value of the digits w·i up to min(w·i + w, n) |
| `Chunking.ParseRenderGroups` | src/formats/hexadecimal.rs:41-51 | parsing the fixed-width rendering of any bytes returns them |
| `Decimal.IsDecimalExamples` | src/formats/decimal.rs:9-65 | every verdict the crate's documentation and unit test assert for the classifier: `0`, `1`, `11`, `12`, `31`, `1424`, `18130184813` and `189120931130184813` accepted; the empty string and `0x33` rejected |
| `Decimal.ToBeBytes` | src/formats/decimal.rs:37 | `to_be_bytes`: exactly width bytes whose big-endian value is the number |
| `Decimal.StripLeadingZeros` | src/formats/decimal.rs:39-41 | the trimming loop keeps a non-empty suffix, removes only zero bytes, leaves no leading zero unless one byte remains, and keeps the value |
| `Decimal.ParseDecimal` | src/formats/decimal.rs:33-44 | fails exactly when the number is 2^64 or more; otherwise 1 to 8 bytes whose big-endian value is the number, with no leading zero byte unless the output is [0] |
| `Decimal.MinimalBytes` | src/formats/decimal.rs:33-44 | a reference built from the low byte up: the shortest big-endian bytes of a number |
| `Decimal.MinimalUnique` | src/formats/decimal.rs:39-41 | two shortest big-endian encodings of one number are the same bytes |
| `Decimal.ParseDecimalIsMinimal` | src/formats/decimal.rs:33-44 | whenever it succeeds, the parse equals the reference encoding of the token's value |
| `Decimal.ParseDecimalLeadingZeros` | src/formats/decimal.rs:34 | leading zero digits do not change the output |
| `Decimal.ParseDecimalOneByte` | src/formats/decimal.rs:39-41 | a number below 256 is the single byte holding it |
| `Decimal.ParseDecimalTen` | src/formats/decimal.rs:68 | `10` is [10] |
| `Decimal.ParseDecimalSix` | src/formats/decimal.rs:69 | `6` is [6] |
| `Decimal.ParseDecimal89` | src/lib.rs:43 | `89`, the fourth word of the dispatcher's test, is [89] |
| `Decimal.ParseDecimal256` | src/formats/decimal.rs:71 | `256` is [1, 0] |
| `Decimal.ParseDecimal1024` | src/formats/decimal.rs:74 | `1024` is [4, 0] |
| `Decimal.ParseDecimal123456789` | src/formats/decimal.rs:75-78 | `123456789` is [0x07, 0x5b, 0xcd, 0x15] |
| `Decimal.ParseDecimalZero` | src/formats/decimal.rs:39 | `0` is [0]: the trimming stops at one byte |
| `StrAscii.IsStrAsciiScan` | src/formats/str.rs:11-15 | a scan for the unanchored pattern `ASCII\(.+\)` answers true exactly when the text holds a match |
| `StrAscii.MarkerIsStrAscii` | src/formats/str.rs:11-15 | a marker with non-empty, single-line content is recognised |
| `StrAscii.IsStrAsciiAround` | src/formats/str.rs:12 | the pattern is unanchored: text around a match does not hide it |
| `StrAscii.IsStrAsciiExamples` | src/formats/str.rs:7-49 | every verdict the crate's documentation and unit test assert for the classifier: `ASCII(Hello)`, `ASCII(world)`, `ASCII(hello)`, `ASCII(12)`, `ASCII(1)`, `ASCII(0x44)`, `ASCII(Hi mom)` and `ASCII(1234)` accepted; `Hi mom` rejected |
| `StrAscii.IsStrAsciiRejects` | src/formats/str.rs:12 | consequences of the pattern that no example of the crate states: `ASCII()` is rejected because `.+` needs a character, and a line feed as content is rejected because `.` does not match it |
| `StrAscii.Utf8` | src/formats/str.rs:33 | a character's bytes: one byte exactly below 0x80, equal to its code, otherwise two to four |
| `StrAscii.EncodeAppend` | src/formats/str.rs:33 | the bytes of joined text are the bytes of the parts joined |
| `StrAscii.CharBoundary` | src/formats/str.rs:30 | the character position where byte n falls, when it is a character boundary |
| `StrAscii.CharBoundaryComplete` | src/formats/str.rs:30 | whenever a prefix ends at byte n, the boundary is found |
| `StrAscii.ParseStrAscii` | src/formats/str.rs:29-36 | fails exactly when byte 6 is not a character boundary. Otherwise the text's bytes are the first six, then the result, then the last character's bytes; a text of exactly six bytes gives nothing |
| `StrAscii.ParseMarker` | src/formats/str.rs:29-36 | on `ASCII(` + m + `)` the parse is the UTF-8 bytes of m, whatever m is |
| `StrAscii.ParseStrAsciiLength` | src/formats/str.rs:29-36 | ASCII text of six characters or more parses to one code per character, seven fewer than the token, and to none when it has exactly six |
| `StrAscii.ParseStrAsciiShort` | src/formats/str.rs:30 | text of fewer than six bytes makes the slice fail |
| `StrAscii.ParseAsciiMarker` | src/formats/str.rs:29-36 | ASCII content comes out as its character codes |
| `StrAscii.ParseMarkerChar` | src/formats/str.rs:31-33 | a single content character comes out as its UTF-8 bytes |
| `StrAscii.ParseStrAsciiOneLetter` | src/formats/str.rs:51 | `ASCII(a)` is [0x61] |
| `StrAscii.ParseStrAsciiThreeLetters` | src/formats/str.rs:52 | `ASCII(abc)` is [0x61, 0x62, 0x63] |
| `StrAscii.ParseStrAsciiDigit` | src/formats/str.rs:53 | `ASCII(0)` is the code [0x30], not the number 0 |
| `StrAscii.ParseStrAsciiUtf8` | src/formats/str.rs:33 | `ASCII(é)` is [0xc3, 0xa9] |
| `StrAscii.ShiftedMarkerAccepted` | src/formats/str.rs:11-15 | `xASCII(a)` is accepted by the classifier |
| `StrAscii.ShiftedMarkerParse` | src/formats/str.rs:29-31 | the parser reads `xASCII(a)` as the bytes of `(a` |
| `StrAscii.LastClose` | src/formats/str.rs:12 | the greedy end of `.+\)`: the result is a valid closing `)`, and no valid one lies after it |
| `StrAscii.FindMarker` | src/formats/str.rs:12 | the regex search: a match that starts no later than any other match, taken to its last valid `)` |
| `StrAscii.ParseMarkerContent` | src/formats/str.rs:11-36 | the corrected parser succeeds exactly on the texts the classifier accepts |
| `StrAscii.ParseMarkerContentAt` | src/formats/str.rs:11-36 | the corrected parser returns the content of the leftmost match, taken to its last `)` |
| `StrAscii.ParseMarkerContentPrefixed` | src/formats/str.rs:29-36 | on a token that starts with the marker, the corrected parser agrees with `parse_str_ascii` |
| `StrAscii.ParseMarkerContentShifted` | src/formats/str.rs:11-36 | the corrected parser reads `xASCII(a)` as [0x61] |
| `StrToBytes.ClassifiersDisjoint` | src/lib.rs:22-32 | no token is accepted by two classifiers, so the priority order never changes a result |
| `StrToBytes.ConvertWord` | src/lib.rs:22-32 | the only failure a single word can cause is decimal overflow |
| `StrToBytes.ConvertWordOutcome` | src/lib.rs:21-33 | a word fails exactly when it is decimal and at least 2^64; it adds nothing exactly when no classifier accepts it |
| `StrToBytes.ConvertWordFormats` | src/lib.rs:22-32 | a word accepted by a classifier contributes that format's parse; one accepted by none contributes nothing |
| `StrToBytes.AsciiMarkerSkipped` | src/lib.rs:21-33 | an `ASCII(…)` word contributes nothing: the dispatcher never calls the marker parser |
| `StrToBytes.FoldFails` | src/lib.rs:21-33 | the loop fails exactly when some word fails, and then with that word's error |
| `StrToBytes.FoldAppend` | src/lib.rs:21-33 | converting a joined word list fails when a part fails, and otherwise yields the parts' bytes concatenated |
| `StrToBytes.DispatchFails` | src/lib.rs:21-34 | the words fail exactly when some word fails, and the error is then always decimal overflow |
| `StrToBytes.DispatchWordFails` | src/lib.rs:30-31 | one failing word fails the whole list |
| `StrToBytes.DispatchOne` | src/lib.rs:21-33 | a single word converts as that word alone |
| `StrToBytes.DispatchSnoc` | src/lib.rs:23-31 | each word's bytes are appended after those already collected |
| `StrToBytes.DispatchAppend` | src/lib.rs:21-33 | the bytes of a joined word list are the bytes of the parts, in order |
| `StrToBytes.DispatchSkip` | src/lib.rs:21-33 | removing a word that no classifier accepts changes nothing |
| `StrToBytes.Convert` | src/lib.rs:9-35 | `"Invalid payload"` exactly when splitting fails, `"Empty payload"` exactly when there are no words, overflow exactly when some word overflows |
| `StrToBytes.ConvertAppend` | src/lib.rs:9-35 | when the words of a payload are those of two payloads joined, its bytes are theirs concatenated |
| `StrToBytes.ConvertLoop` | src/lib.rs:9-35 | the Rust loop, with its accumulator and early returns, computes the same result as the fold |
| `StrToBytes.FoldFour` | src/lib.rs:21-33 | four words of one byte each give those four bytes in order |
| `StrToBytes.ExampleWords` | src/lib.rs:43 | the test's words convert to [0xff], [0xfa], [0x03] and [89] |
| `StrToBytes.DispatchExample` | src/lib.rs:43 | the words `0xff 0xfa 0b11 89` give [0xff, 0xfa, 0x03, 89] |
| `StrToBytes.ConvertExample` | src/lib.rs:43 | with a splitter that yields those four words, the payload gives [0xff, 0xfa, 0x03, 89] |

## Left out

- Word splitting (`shlex::split`, src/lib.rs:12) is a parameter `split` of
  `Convert` and `ConvertLoop`. Shell quoting and escaping are not modelled.
  `None` stands for the lexer's refusal.
- Regular expressions are predicates. `IsStrAscii` follows `ASCII\(.+\)`:
  `.` matches anything but a line feed. No regex engine is modelled.
- Errors are `Failure` values, not `Box<dyn Error>` message strings.
- Panics are modelled as outcomes, not as unwinding:
  - the `expect` in `parse_decimal` on a number of 2^64 or more is `None`,
    and `DecimalOutOfRange` in the dispatcher;
  - the byte slice `s[6..]` in `parse_str_ascii` is `None` when byte 6 is
    missing or not a character boundary;
  - the `expect` on `from_str_radix` in `parse_binary` and
    `parse_hexadecimal` is proved unreachable.
- Binary.ParseBinary: defined only on tokens `is_binary` accepts, as its
  documentation tells callers. On other strings the Rust code drops the
  first two bytes, and panics if there are fewer or if byte 2 falls inside
  a character. It accepts a `+` at the start of a group, because
  `u8::from_str_radix` takes an optional sign, so `0b+1` gives [1]. It
  panics on any other non-digit. None of that is modelled.
- Hexadecimal.ParseHexadecimal: defined only on tokens `is_hexadecimal`
  accepts, for the same reason. The Rust code behaves the same way on
  other strings: `0x+f` gives [15].
- Decimal.ParseDecimal: defined only on tokens `is_decimal` accepts, for
  the same reason.
- Some test vectors are not stated as lemmas on their literal tokens. They
  are too long for the verifier to evaluate on the literal:
  - the four-byte binary vector (src/formats/binary.rs:87-90);
  - the six-byte hexadecimal vector (src/formats/hexadecimal.rs:90-93).

  Their shape is covered by `Binary.ParseBinaryAt`, `Binary.ParseBinaryAppend`,
  `Hexadecimal.ParseHexadecimalAt` and `Hexadecimal.ParseHexadecimalJoin`.
- Numbers of 2^64 and more are characterised by `Decimal.ParseDecimal`, but
  no literal overflowing token is evaluated.
- Vectors that repeat a proved one are not restated, e.g.
  `parse_hexadecimal("0x10")` and `parse_decimal("1")`. They follow from
  `Hexadecimal.ParseHexadecimalOneGroup` and `Decimal.ParseDecimalOneByte`.
- examples/basic.rs, a demonstration program that prints a result, is not
  part of this model.

## Findings

| source | as written | input that shows it | evidently intended | confidence | as-written member | corrected member |
|---|---|---|---|---|---|---|
| src/formats/str.rs:11-36 | `is_str_ascii` accepts the marker anywhere in the text, but `parse_str_ascii`, which its documentation says to use whenever the classifier accepts, drops exactly six leading bytes and one trailing character | `xASCII(a)` is accepted and parses to [0x28, 0x61], the bytes of `(a` | the content of the match the classifier found, [0x61] | medium, not executed | `StrAscii.ShiftedMarkerParse` | `StrAscii.ParseMarkerContentShifted` |

The corrected parser is `StrAscii.ParseMarkerContent`:

- It succeeds exactly on the texts the classifier accepts.
- It returns the content of the leftmost match, taken to the last valid
  `)` (`StrAscii.ParseMarkerContentAt`).
- It agrees with `parse_str_ascii` on every token that starts with the
  marker (`StrAscii.ParseMarkerContentPrefixed`).

Neither parser is reached from `str_to_bytes`.
