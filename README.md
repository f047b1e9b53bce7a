# sead stream formats, modelled in Dafny

This project models sead's two stream formats from `seadStreamFormat.cpp`. Both serialise typed values onto a byte channel (`StreamSrc`).

- **`BinaryStreamFormat`** writes every value as fixed-width bytes:
  - scalars in a chosen byte order;
  - bit fields as whole bytes plus a partial trailing byte;
  - strings as NUL-padded fixed-size fields;
  - memory blocks as raw bytes.
- **`TextStreamFormat`** writes every value as a token of text:
  - integers in decimal, then a space;
  - bit fields as `0b` and binary digits;
  - strings between double quotes, with a backslash before every embedded quote;
  - memory blocks as quoted Base64.

  Every text read first calls the tokenizer `getNextData_`. It reads one character at a time into the 128-byte scratch string `sTextData`. It skips delimiters, `//` and `#` line comments, and `/* */` block comments, and it has a quoted mode.

Files:

| file | module | contents |
|---|---|---|
| `bytes.dfy` | `Bytes`, `Optional` | bytes, the trailing-byte mask and merge |
| `safe_string.dfy` | `SafeString` | the bounded scratch string: `append`, `trim`, indexing, C strings |
| `stream_src.dfy` | `Channel` | the channel as a class: a byte sequence and a cursor |
| `endian.dfy` | `Endian` | `toHost`/`fromHost` on a little-endian host, two's complement |
| `binary_format.dfy` | `BinaryFormat` | every `BinaryStreamFormat` operation |
| `bit_text.dfy` | `BitText` | the `0b…` digits the text format writes and the bytes its reader rebuilds |
| `decimal.dfy` | `Decimal` | `%u`/`%d` text and a decimal parser |
| `tokenizer.dfy` | `Tokenizer` | `getNextData_` as a state machine over characters, and its behaviour on each kind of input |
| `text_format.dfy` | `TextFormat` | the class `TextStreamFormat` with `sTextData` as a field, every text operation, and the round trips |
| `scenarios.dfy` | `Scenarios` | values written to a fresh channel, rewound and read back |

The tokenizer is specified by the function `Tokenizer.NextToken`, a `Feed` step folded over the input. The method `TextStreamFormat.GetNextData` runs the source's do-while loop. Its postcondition says that the scratch string and the cursor end up exactly where `NextToken` says.

The tokenizer's quirks are kept as written:
- The counter `inToken` is tracked apart from the string's length.
- An escaped quote is appended and the counter steps back.
- A quote opens quoted mode only at `inToken == 0`.
- A `#` cuts the string at `inToken - 1`.
- A star not followed by a slash sends a block comment back to waiting for a star.
- A closed comment comes back as a terminator.

`writeString` puts a backslash before each quote, but `getNextData_` never removes it, so no string with a quote reads back as written. Depending on where the quote falls, the token keeps `\"` (`ab"` gives `ab\"`, `Tokenizer.EscapedQuoteKept`), ends at the escaped quote (`"xy` gives `\`, `Tokenizer.EscapedQuoteFirstEnds`), or runs past the closing quote (`a"b` gives `a\"b" 42`, `Tokenizer.EscapedQuoteRunsOn`). The model follows the code. The string round trip is therefore proved only for strings without quotes (`TextFormat.StringTextRoundTrip`).

## Model

| member | source | states |
|---|---|---|
| BinaryFormat.RawScalar | modules/src/stream/seadStreamFormat.cpp:15-20 | the raw scalar is the first `sizeof(T)` bytes of the input when present; missing bytes keep the zero the variable started with |
| BinaryFormat.ReadUnsigned | modules/src/stream/seadStreamFormat.cpp:15-41 | consumes `min(sizeof(T), remaining)` bytes and returns `toHost` of the raw bytes, a value below 256^sizeof(T); the channel's bytes are unchanged |
| BinaryFormat.ReadSigned | modules/src/stream/seadStreamFormat.cpp:43-69 | the same bytes read as two's complement; the result is in the signed range of the width |
| BinaryFormat.WriteUnsigned | modules/src/stream/seadStreamFormat.cpp:127-149 | appends exactly the `sizeof(T)` bytes of `fromHost(v)`; the cursor does not move |
| BinaryFormat.WriteSigned | modules/src/stream/seadStreamFormat.cpp:151-173 | appends the `sizeof(T)`-byte two's complement pattern of `v` in the chosen byte order |
| BinaryFormat.ScalarRoundTrip | modules/src/stream/seadStreamFormat.cpp:127-149 | an unsigned scalar written and then read at the same place, in the same byte order, comes back unchanged, whatever follows it |
| BinaryFormat.SignedScalarRoundTrip | modules/src/stream/seadStreamFormat.cpp:151-173 | the same for signed scalars |
| Endian.ToHostFromHost | modules/src/stream/seadStreamFormat.cpp:127-131 | `toHost(fromHost(v))` is `v` for every value that fits the width, in either byte order |
| Endian.FromHostToHost | modules/src/stream/seadStreamFormat.cpp:15-20 | conversely, raw bytes turned into a value and back are unchanged |
| Endian.SignedRoundTrip | modules/src/stream/seadStreamFormat.cpp:151-155 | a signed value in range maps to a pattern below 256^n, which maps back to the value |
| Endian.UnsignedRoundTrip | modules/src/stream/seadStreamFormat.cpp:43-48 | every n-byte pattern reads as a signed value in range, and that value maps back to the same pattern |
| Endian.LittleValueOfBytes | modules/src/stream/seadStreamFormat.cpp:127-131 | decoding the little-endian bytes of a value that fits gives the value back |
| Endian.LittleBytesOfValue | modules/src/stream/seadStreamFormat.cpp:15-20 | encoding the value of a byte string gives the byte string back |
| Endian.ReverseReverse | modules/src/stream/seadStreamFormat.cpp:15-20 | reversing the byte order twice is the identity |
| BinaryFormat.ReadBit | modules/src/stream/seadStreamFormat.cpp:79-96 | consumes `bits/8` bytes, plus one more only for a partial byte; the destination becomes `ReadBitResult`, and the byte merged is the next input byte when there is one |
| BinaryFormat.ReadBitCopies | modules/src/stream/seadStreamFormat.cpp:81-85 | the first `bits/8` bytes, as far as the channel has them, are copied; every other byte except a partial trailing byte is untouched |
| BinaryFormat.ReadBitTrailing | modules/src/stream/seadStreamFormat.cpp:87-95 | a partial trailing byte keeps the destination's bits under `0xFF << r` and takes the others from the byte read |
| BinaryFormat.ReadBitWhole | modules/src/stream/seadStreamFormat.cpp:79-96 | when the channel holds the whole field, the result is the field's bytes with the trailing byte merged (`BitFieldRead`) |
| BinaryFormat.MergeTrailingByte | modules/src/stream/seadStreamFormat.cpp:93-95 | the two in-place updates change only `data[size]`, which becomes the merge of its old value and the byte read |
| Bytes.MergeLow | modules/src/stream/seadStreamFormat.cpp:93-95 | the merged byte agrees with the destination under the mask and with the byte read outside it |
| BinaryFormat.WriteBitBytes | modules/src/stream/seadStreamFormat.cpp:181-193 | `writeBit` emits exactly the first `ceil(bits/8)` bytes of the data; the trailing byte is emitted whole, unmasked |
| BinaryFormat.WriteBit | modules/src/stream/seadStreamFormat.cpp:181-193 | appends `WriteBitBytes(data, bits)` for fields below 2048 bits |
| BinaryFormat.BitFieldRoundTrip | modules/src/stream/seadStreamFormat.cpp:79-96 | a bit field written and read back restores the whole bytes, merges the low `r` bits of the trailing byte (keeping the destination's high bits) and leaves every later byte alone |
| BinaryFormat.WriteBitAsWrittenAgrees | modules/src/stream/seadStreamFormat.cpp:185 | below 2048 bits the `u8` byte count gives the same bytes as the exact count |
| BinaryFormat.WriteBitAsWrittenWraps | modules/src/stream/seadStreamFormat.cpp:185 | at 2048 bits the `u8` byte count wraps to 0 and a single byte is emitted instead of 256 |
| BinaryFormat.FixedField | modules/src/stream/seadStreamFormat.cpp:195-206 | the string field is always exactly `size` bytes long |
| BinaryFormat.FixedFieldDecodes | modules/src/stream/seadStreamFormat.cpp:195-206 | read as a C string, the field gives the string cut to `size` |
| BinaryFormat.WriteString | modules/src/stream/seadStreamFormat.cpp:195-206 | appends the first `min(length, size)` characters and then NUL padding up to `size` bytes |
| BinaryFormat.ReadString | modules/src/stream/seadStreamFormat.cpp:99-120 | consumes `min(size, remaining)` bytes over its two reads and leaves the buffer as `ReadStringBuffer` says: the first read cut to the buffer and terminated, then any rest of the field read over the start of the buffer |
| BinaryFormat.StringFieldRoundTrip | modules/src/stream/seadStreamFormat.cpp:99-114 | a field no longer than the buffer reads back as the written string, cut to the field and to the buffer size less one |
| BinaryFormat.ReadStringDrainOverwrites | modules/src/stream/seadStreamFormat.cpp:116-119 | with a 4-byte buffer, the 7-byte field `abcdefg` leaves the string `efg`, not `abc` |
| BinaryFormat.DiscardingRestKeepsPrefix | modules/src/stream/seadStreamFormat.cpp:99-114 | when the rest of a long field is discarded instead, the buffer holds the field's first `bufferSize - 1` characters |
| BinaryFormat.ReadMemBlock | modules/src/stream/seadStreamFormat.cpp:122-125 | reads `min(size, remaining)` bytes into the buffer, returns that count and leaves the rest of the buffer alone |
| BinaryFormat.WriteMemBlock | modules/src/stream/seadStreamFormat.cpp:208-211 | appends the first `size` bytes of the buffer, raw |
| BinaryFormat.WriteDecorationText | modules/src/stream/seadStreamFormat.cpp:213-216 | writes nothing |
| BinaryFormat.WriteNullChar | modules/src/stream/seadStreamFormat.cpp:218 | writes nothing |
| BinaryFormat.Skip | modules/src/stream/seadStreamFormat.cpp:220-223 | moves the cursor `offset` bytes on, stopping at the end |
| BinaryFormat.Flush | modules/src/stream/seadStreamFormat.cpp:225 | changes nothing |
| BinaryFormat.Rewind | modules/src/stream/seadStreamFormat.cpp:227-230 | the cursor returns to 0 and the bytes stay |
| Tokenizer.FilterComment | modules/src/stream/seadStreamFormat.cpp:614-630 | inside a comment, only the comment's closing character lets a character through, and what goes through is the terminator |
| Tokenizer.BareStep | modules/src/stream/seadStreamFormat.cpp:656-707 | outside quotes, a token ends only at a delimiter, the token is the accumulated text, and it is never empty |
| Tokenizer.Feed | modules/src/stream/seadStreamFormat.cpp:613-708 | one pass of the loop body: when the token ends it is the text accumulated so far, and it is empty only for an empty quoted string |
| Tokenizer.Scan | modules/src/stream/seadStreamFormat.cpp:612-709 | never consumes more than the input, and consumes at least one character of a non-empty input |
| Tokenizer.NextToken | modules/src/stream/seadStreamFormat.cpp:600-710 | on an empty channel, the token is empty and nothing is consumed; otherwise at least one character is consumed |
| Tokenizer.FeedSound | modules/src/stream/seadStreamFormat.cpp:642-651 | every step keeps the scratch string within 127 characters with no NUL inside |
| Tokenizer.ScanFits | modules/src/stream/seadStreamFormat.cpp:612-709 | the same over a whole scan |
| Tokenizer.TokenFits | modules/src/stream/seadStreamFormat.cpp:600-710 | every token fits the scratch string |
| Tokenizer.FeedPlain | modules/src/stream/seadStreamFormat.cpp:672-707 | a plain character (not a delimiter, quote, `#` or `/`) extends a bare token by itself |
| Tokenizer.ScanPlain | modules/src/stream/seadStreamFormat.cpp:672-707 | a run of plain characters is appended one for one and counted as consumed |
| Tokenizer.BareWord | modules/src/stream/seadStreamFormat.cpp:663-670 | a bare token of plain characters ends at the first delimiter, which is consumed with it; what follows is not looked at |
| Tokenizer.BareWordAtEnd | modules/src/stream/seadStreamFormat.cpp:709 | at the end of the input, the token is whatever has accumulated |
| Tokenizer.LeadingDelimiter | modules/src/stream/seadStreamFormat.cpp:663-670 | delimiters before a token are skipped and counted as consumed |
| Tokenizer.LineComment | modules/src/stream/seadStreamFormat.cpp:684-691 | `//` after a bare token is cut off, the comment is skipped to its line end, and the token is the text before the slashes |
| Tokenizer.BlockComment | modules/src/stream/seadStreamFormat.cpp:693-700 | `/*` after a bare token is cut off, the comment is skipped to `*/`, and the token is the text before it |
| Tokenizer.StarWithoutSlash | modules/src/stream/seadStreamFormat.cpp:616-620 | in a block comment, a star followed by anything but `/` goes back to waiting for a star |
| Tokenizer.LeadingLineComment | modules/src/stream/seadStreamFormat.cpp:684-691 | a line comment before any token is skipped like a delimiter, and the token is the one after it |
| Tokenizer.CommentBetweenWords | modules/src/stream/seadStreamFormat.cpp:663-691 | `foo // comment`, a line end and `bar` give `foo` and then `bar` |
| Tokenizer.ScanQuoted | modules/src/stream/seadStreamFormat.cpp:649-653 | inside quotes, characters other than quotes are appended and counted one for one |
| Tokenizer.QuotedToken | modules/src/stream/seadStreamFormat.cpp:633-639 | a quoted token with no quote inside, whose last character is not a backslash, is returned without its quotes; both quotes are consumed |
| Tokenizer.EscapedQuote | modules/src/stream/seadStreamFormat.cpp:642-646 | a quote after a backslash is appended and the counter steps back, away from the string's length |
| Tokenizer.EscapedQuoteRunsOn | modules/src/stream/seadStreamFormat.cpp:633-653 | the input `"a\"b" 42` gives the token `a\"b" 42`: the backslash is kept and the closing quote does not close |
| Tokenizer.EscapedQuoteKept | modules/src/stream/seadStreamFormat.cpp:633-646 | the written form of `ab"` gives the token `ab\"` after six bytes: the backslash stays, and the closing quote still closes |
| Tokenizer.EscapedQuoteFirstEnds | modules/src/stream/seadStreamFormat.cpp:633-646 | the written form of `"xy` gives the token `\` after three bytes: with the counter at 1, the escaped quote ends the token |
| Tokenizer.FeedHash | modules/src/stream/seadStreamFormat.cpp:675-679 | a `#` after a bare token cuts the string one character before it, keeps the counter and starts a line comment |
| Tokenizer.HashComment | modules/src/stream/seadStreamFormat.cpp:675-679 | a bare token with `#` in it loses the character before the `#` too, and the rest of the line is skipped |
| Tokenizer.HashCutsBeforeIt | modules/src/stream/seadStreamFormat.cpp:675-679 | `ab#c`, a line end and `d` give the token `a` after five characters |
| TextFormat.FeedChar | modules/src/stream/seadStreamFormat.cpp:613-708 | the loop body over the loop's locals does exactly what `Feed` specifies; a `return` leaves the string as it was |
| TextFormat.TextStreamFormat.GetNextData | modules/src/stream/seadStreamFormat.cpp:600-710 | the scratch string becomes `NextToken(remaining).text` and the cursor moves on by `NextToken(remaining).consumed`; the channel's bytes are unchanged |
| TextFormat.TextStreamFormat.ReadInteger | modules/src/stream/seadStreamFormat.cpp:234-320 | reads one token and returns what the parser gives for it, or 0 when the parser refuses it |
| TextFormat.TextStreamFormat.WriteUnsigned | modules/src/stream/seadStreamFormat.cpp:400-438 | appends the decimal digits of the value and one space |
| TextFormat.TextStreamFormat.WriteSigned | modules/src/stream/seadStreamFormat.cpp:440-478 | appends the decimal text of the value, with a minus sign when negative, and one space |
| Decimal.FormatUnsignedValue | modules/src/stream/seadStreamFormat.cpp:400-408 | the digits printed for `v` denote `v` |
| Decimal.ParseFormatted | modules/src/stream/seadStreamFormat.cpp:234-243 | the decimal parser gives back any value from its `%u`/`%d` text |
| Decimal.FormatSigned64Length | modules/src/stream/seadStreamFormat.cpp:402-403 | the text of any 64-bit value has at most 20 characters, so the 32-byte temporary never cuts it |
| TextFormat.IntegerTextRoundTrip | modules/src/stream/seadStreamFormat.cpp:440-478 | an integer written as text is read back as exactly its digits, with the space consumed, and parses back to the value |
| TextFormat.TextStreamFormat.ReadBit | modules/src/stream/seadStreamFormat.cpp:338-373 | reads one token; for a `0b` token the destination becomes `UnpackBits` of the digits after the prefix; any other token leaves the destination unchanged |
| TextFormat.UnpackInto | modules/src/stream/seadStreamFormat.cpp:345-370 | the shift loop and the trailing merge leave exactly `UnpackBits(old, digits, bits)`; any character other than `1`, including every position past the token's end, where the scratch string's index returns the terminator, reads as 0 |
| TextFormat.TextStreamFormat.WriteBit | modules/src/stream/seadStreamFormat.cpp:490-514 | the scratch string becomes `0b` plus one digit per bit, byte by byte from the top bit, using only the low `bits % 8` bits of the trailing byte; it is appended with one space |
| TextFormat.TextStreamFormat.AppendGroup | modules/src/stream/seadStreamFormat.cpp:501-507 | the inner loop appends the digits of bits `width-1` down to 0 of one byte |
| BitText.DigitsStep | modules/src/stream/seadStreamFormat.cpp:501-507 | spelling one more, lower bit appends its digit |
| BitText.PackedGroup | modules/src/stream/seadStreamFormat.cpp:349-356 | shifting a byte's digits back in gives its low `GroupWidth` bits |
| BitText.UnpackedWhole | modules/src/stream/seadStreamFormat.cpp:353-357 | every whole byte of the field is restored |
| BitText.UnpackedPartial | modules/src/stream/seadStreamFormat.cpp:362-368 | the trailing partial byte gets the field's low bits and keeps its own bits under `0xFF << r` |
| BitText.BitTextRoundTrip | modules/src/stream/seadStreamFormat.cpp:338-373 | unpacking the written digits restores the field's bytes, merges the partial byte and leaves later bytes alone |
| TextFormat.BitTokenFits | modules/src/stream/seadStreamFormat.cpp:490-514 | the bit field's text consists of plain characters and fits the scratch string |
| TextFormat.BitFieldTextRoundTrip | modules/src/stream/seadStreamFormat.cpp:490-514 | a bit field written as text is read back as its whole `0b` token, with the space consumed, and unpacking it restores the field |
| TextFormat.TextStreamFormat.ReadString | modules/src/stream/seadStreamFormat.cpp:375-383 | reads one token and copies it into the buffer, cut to the buffer size less one and NUL-terminated; the buffer's C string is that prefix of the token |
| TextFormat.TextStreamFormat.WriteString | modules/src/stream/seadStreamFormat.cpp:516-542 | appends a quote, then the first `min(length, size)` characters with a backslash before each quote, then a quote, and no terminator |
| TextFormat.UnescapeEscape | modules/src/stream/seadStreamFormat.cpp:523-538 | the escaping loses nothing: undoing it gives the string back |
| TextFormat.EscapeWithoutQuotes | modules/src/stream/seadStreamFormat.cpp:523-538 | a string with no quote is written between the quotes as it is |
| TextFormat.StringTextRoundTrip | modules/src/stream/seadStreamFormat.cpp:516-542 | a string written as text, with no quote and not ending in a backslash, comes back as the next token with both quotes consumed |
| TextFormat.ToBase64Size | modules/src/stream/seadStreamFormat.cpp:544-550 | the result is a multiple of 4 and equals `4 * ceil(size / 3)` (`4*size <= 3*n < 4*size + 12`) |
| TextFormat.MemBlockFits | modules/src/stream/seadStreamFormat.cpp:557 | the Base64 text and its terminator fit the scratch string exactly when the block has at most 93 bytes |
| TextFormat.EncodedText | modules/src/stream/seadStreamFormat.cpp:559-563 | the scratch string after encoding holds no NUL, is at most `toBase64Size` long and is a prefix of the encoder's output |
| TextFormat.TextStreamFormat.WriteMemBlock | modules/src/stream/seadStreamFormat.cpp:552-572 | the scratch string is cleared; if the encoding fits, exactly a quote, the Base64 text, a quote and a space are appended; otherwise nothing is written |
| TextFormat.MemBlockTextRoundTrip | modules/src/stream/seadStreamFormat.cpp:552-572 | a memory block written as quoted text is read back as its Base64 text, with both quotes consumed |
| TextFormat.ToBase64SizeAsWrittenAgrees | modules/src/stream/seadStreamFormat.cpp:544-550 | for blocks up to 1610612733 bytes, the 32-bit computation gives the true size |
| TextFormat.ToBase64SizeAsWrittenWraps | modules/src/stream/seadStreamFormat.cpp:544-550 | for a block of 0x6000_0000 bytes, `b * 4` wraps to -2^31 and the fit test at line 557 passes, although the true size does not fit |
| TextFormat.TextStreamFormat.ReadMemBlock | modules/src/stream/seadStreamFormat.cpp:385-398 | reads one token, stores the first `size` decoded bytes and returns how many were stored |
| TextFormat.TextStreamFormat.WriteDecorationText | modules/src/stream/seadStreamFormat.cpp:574-578 | appends the text as it is, with no terminator |
| TextFormat.TextStreamFormat.WriteNullChar | modules/src/stream/seadStreamFormat.cpp:580-584 | appends one NUL byte |
| TextFormat.TextStreamFormat.Skip | modules/src/stream/seadStreamFormat.cpp:586-591 | ignores the offset and consumes exactly one token |
| TextFormat.TextStreamFormat.Flush | modules/src/stream/seadStreamFormat.cpp:593 | changes nothing |
| TextFormat.TextStreamFormat.Rewind | modules/src/stream/seadStreamFormat.cpp:595-598 | the cursor returns to 0 and the bytes stay |
| Scenarios.BinarySignedThroughChannel | modules/src/stream/seadStreamFormat.cpp:151-173 | a signed value written in binary to a fresh channel, rewound and read back, in either byte order, is the value |
| Scenarios.TextIntegerThroughChannel | modules/src/stream/seadStreamFormat.cpp:440-478 | a signed value written as text and read back with the decimal parser is the value, and the read consumes its digits and the space |
| Scenarios.TextBitFieldThroughChannel | modules/src/stream/seadStreamFormat.cpp:490-514 | a bit field written as text and read back into a destination restores the field as `BitFieldTextRoundTrip` states |
| Scenarios.TextStringThroughChannel | modules/src/stream/seadStreamFormat.cpp:516-542 | a quote-free string written as text and read into a 128-byte buffer comes back cut to `size` |

## Left out

- Floating point: `readF32`/`writeF32` in both formats, `sscanf("%f")` and `"%.8f"`.
- `sMutex`: it exists only for concurrency. The scratch string is a field of the format object. In the source, `sTextData` is one static buffer shared by every text format object; the model gives each object its own.
- `StreamSrc` backends (memory, file): the channel is an in-memory byte sequence with a cursor.
- `Endian::toHost*`/`fromHost*` live in a header that is not part of this model. They are modelled as byte reversal when the wire order differs from a little-endian host.
- `StringUtil::tryParse*`: `TextStreamFormat.ReadInteger` takes the parser as a parameter. Only a decimal parser is proved to undo the writer; the auto-detected bases (hexadecimal and others) and the range checks of each width are not modelled.
- `Base64::encode`/`decode`: these are parameters of `WriteMemBlock`/`ReadMemBlock`.
- TextFormat.TextStreamFormat.ReadMemBlock: what the decoder does with text that decodes to more than `size` bytes belongs to the decoder; the model keeps the first `size` bytes.
- TextFormat.TextStreamFormat.WriteMemBlock: for blocks of 0x6000_0000 bytes or more, the operation follows the corrected `ToBase64Size` and writes nothing, whereas the source's `s32` size wraps, passes the fit test and writes outside the scratch buffer (see Findings).
- TextFormat.TextStreamFormat.WriteMemBlock: the encoder's text is taken up to its first NUL and at most `toBase64Size(size)` characters. Stale scratch bytes that would follow a shorter, unterminated output are not modelled.
- BinaryFormat.ReadBit: when the channel has no byte left for a partial trailing byte, the source merges an uninitialised `lastByte`. The model leaves that byte unconstrained (the ghost `last`).
- BinaryFormat.ReadString: requires `size <= 2 * bufferSize`. A longer field makes the source's second read run past the buffer.
- BinaryFormat.WriteBit: requires `bits < 2048`. At 2048 bits and above, the `u8` byte count wraps; see Findings.
- TextFormat.TextStreamFormat.WriteBit: requires `bits + 2 < 128`. With 126 bits, the scratch string holds only 127 characters and the write of `bits + 2` bytes puts its terminator in place of the last digit; longer fields read past the buffer.
- TextFormat.TextStreamFormat.WriteString: the source's `str.cstr()` call and its second quote test (in the branch where the character is not a quote) have no effect and are not modelled.
- Integer widths: a value's width is a precondition (`v < 256^size`, or the signed range) rather than a C++ type. Byte counts and sizes are unbounded naturals, except where the source's narrow types matter (`u8 size` in binary `writeBit`, the `s32` in `toBase64Size`); both are modelled in the as-written members of Findings, and the operations use the corrected counts.
- `include/gfx/seadGraphicsContext.h` and `include/gfx/seadGraphics.h`: graphics render state, unrelated to the stream formats.

## Findings

| source | as written | input that shows it | evidently intended | confidence | as-written member | corrected member |
|---|---|---|---|---|---|---|
| modules/src/stream/seadStreamFormat.cpp:185 | `u8 size = bits / 8` wraps for fields of 2048 bits or more | `bits = 2048`: one byte is emitted instead of 256 | emit `ceil(bits/8)` bytes | not executed | BinaryFormat.WriteBitAsWrittenWraps | BinaryFormat.WriteBitBytes |
| modules/src/stream/seadStreamFormat.cpp:116-119 | the rest of an overlong string field is read over the start of the caller's buffer | buffer of 4 bytes, field `abcdefg`: the string left is `efg` | consume the rest without storing it, keeping `abc` | not executed | BinaryFormat.ReadStringDrainOverwrites | BinaryFormat.DiscardingRestKeepsPrefix |
| modules/src/stream/seadStreamFormat.cpp:544-550 | `b * 4` is computed in an `s32` and wraps | `size = 0x6000_0000`: `toBase64Size` is -2^31, so the fit test at line 557 passes and line 561 writes far outside the buffer | compute the size without overflow, so that only blocks of at most 93 bytes pass | not executed | TextFormat.ToBase64SizeAsWrittenWraps | TextFormat.MemBlockFits |
