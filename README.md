# steg-png in Dafny

steg-png hides data in PNG images. It adds private `stEG` chunks to the image's
chunk stream, just before the `IEND` chunk. A viewer skips unknown ancillary
chunks, so the picture looks the same. It offers three sub-commands:

- `embed` writes a message or a file into a new `stEG` chunk;
- `extract` inflates the `stEG` chunks back into the hidden data;
- `inspect` lists the chunks of an image and counts them by type.

An older single-command front end (`src/main.c`) embeds a message by scanning
the whole file for the `IEND` bytes.

This project models the core of the program and proves properties of it:

- **The chunk codec and reader** (`PngChunk`). The length, type, data and CRC
  layout of a chunk follows section 3.2 of RFC 2083. The signature check
  follows section 3.1. `next_chunk` reads one whole chunk and checks its CRC.
  The iterator is a class over an input file.
- **`strbuf`** (`StringBuffer`). A growable byte buffer with a NUL
  terminator: attach, trim, remove, split, detach.
- **`str_array`** (`StringArray`). A growable array of strings, each with an
  optional data slot: push, insert, set, remove, sort, detach.
- **`parse_options`** (`ParseOptions`). Command-line parsing over a
  NULL-terminated `argv` array shifted in place. Its results are
  modelled as "effects" (which option's variable is written and with what).
- **The `usage` matchers** (`Usage`). `argument_matches_option` and
  `is_valid_argument`.
- **The three sub-commands** (`Commands`, `Embed`, `Extract`, `Inspect`).
  Each is proved against a specification function of the input stream:
  - `Embed`: the output is the input with the new chunk spliced in before
    the first `IEND`;
  - `Extract`: the output is the inflation of the `stEG` payloads, in order;
  - `Inspect`: the counts are a histogram of the chunk types, in order of
    first appearance.
- **The legacy `main`** (`LegacyMain`).

The environment enters as parameters:

- files are `Files.InputFile` (contents and a read offset) and
  `Files.OutputFile` (appended bytes);
- CRC-32, its incremental update, zlib's inflate and `strtol` are function
  parameters with no further assumptions.

The iterator interface used by `extract` and `inspect`
(`chunk_iterator_has_next`, `chunk_iterator_next`, `chunk_iterator_read_data`,
the type and flag getters) is not part of this model. `ChunkCursor.Cursor`
stands in for it: a cursor over a list of parsed chunks that ends cleanly or
with an error.

Error exits are values of `Common.Failure`:

- `Bug` is BUG;
- `Fatal` is FATAL;
- `Die` is DIE.

## Model

| member | source | states |
|---|---|---|
| `Common.Wrap32` | src/builtin/embed.c:161 | reduction to an unsigned 32-bit value leaves every value below 2^32 unchanged |
| `Common.Wrap32Congruent` | src/builtin/embed.c:161 | the 32-bit reduction differs from the value by a multiple of 2^32 |
| `Common.BigEndian` | src/builtin/embed.c:321-326 | a 32-bit word in network order takes exactly four bytes |
| `Common.LittleEndian` | src/main.c:192-197 | a 32-bit word in host (little-endian) order takes exactly four bytes |
| `Common.BigEndianRoundTrip` | src/png-chunk-processor.c:67-75 | reading back a big-endian encoded word yields the same word |
| `Common.ReadBigEndianRoundTrip` | src/png-chunk-processor.c:67-75 | every four bytes are the big-endian encoding of the word read from them |
| `Common.BigEndianInjective` | src/png-chunk-processor.c:67-75 | distinct words have distinct big-endian encodings |
| `Common.Latin1` | src/builtin/embed.c:100-113 | converting a text to bytes keeps its length |
| `Common.CStrLen` | src/strbuf.c:54-57 | `strlen` is the index of the first NUL, and no NUL precedes it |
| `Common.CStr` | src/strbuf.c:54-57 | a C string is the longest NUL-free prefix of the buffer |
| `Common.CStrOfTerminated` | src/strbuf.c:54-57 | a NUL-free string followed by a NUL reads back as itself, whatever follows |
| `Files.InputFile.Read` | src/utils.c:82-98 | a read returns the next min(n, remaining) bytes in order and consumes exactly them |
| `Files.OutputFile.Write` | src/utils.c:100-116 | a write appends all the given bytes |
| `ChunkCursor.Cursor.Current` | src/builtin/extract.c:122-124 | the current chunk is one of the stream's chunks |
| `ChunkCursor.Cursor.Init` | src/builtin/extract.c:80-85 | initialising reports the stream's status and rewinds to before the first chunk |
| `ChunkCursor.Cursor.HasNext` | src/builtin/extract.c:110-112 | reports 1 while chunks remain; at the end, 0 for a clean end and a negative value for a failing one |
| `ChunkCursor.Cursor.Next` | src/builtin/extract.c:114-115 | advances to the next chunk and returns 0, or returns -1 and stays put when none is left |
| `ChunkCursor.Cursor.ReadData` | src/builtin/extract.c:127 | returns the next up to n bytes of the current chunk's data; it returns nothing exactly when the data is used up |
| `PngChunk.Encode` | src/png-chunk-processor.c:30-47 | a chunk occupies 12 bytes more than its data |
| `PngChunk.ParseDataLength` | src/png-chunk-processor.c:67-75 | the length field is refused exactly when the buffer holds four bytes or fewer |
| `PngChunk.ParseDataLengthMeaning` | src/png-chunk-processor.c:67-75 | the parsed length is the word whose big-endian bytes open the chunk |
| `PngChunk.ParseType` | src/png-chunk-processor.c:77-89 | the type is accepted exactly when bytes 4-7 exist and are all ASCII, and it is those four bytes |
| `PngChunk.ParseTypeAsWritten` | src/png-chunk-processor.c:77-89 | as written, the bound check accepts any buffer of at least four bytes and reads bytes 4-7 from memory past the contents |
| `PngChunk.ParseTypeReadsPastContents` | src/png-chunk-processor.c:80-83 | a five-byte chunk followed in memory by "IEND" is reported as an IEND chunk, which the corrected parser refuses |
| `PngChunk.ParseCrc` | src/png-chunk-processor.c:91-104 | the CRC is read exactly when the chunk is 12 bytes longer than its declared data length |
| `PngChunk.ParseCrcMeaning` | src/png-chunk-processor.c:91-104 | the parsed CRC is the big-endian word in the chunk's last four bytes |
| `PngChunk.DecodeEncode` | src/png-chunk-processor.c:67-104 | parsing an encoded chunk gives back its type, data and CRC |
| `PngChunk.Decode` | src/png-chunk-processor.c:67-104 | a decoded chunk has a four-byte type, its data is the buffer less twelve bytes, and the length field gives that data length |
| `PngChunk.EncodeDecode` | src/png-chunk-processor.c:67-104 | every byte string that parses as a chunk is the encoding of the parsed chunk |
| `PngChunk.BodyLength` | src/png-chunk-processor.c:40 | the body to read is the data length plus 8, when that sum does not overflow 32 bits |
| `PngChunk.NextChunkSpec` | src/png-chunk-processor.c:30-59 | a successful read consumes at least 12 bytes and appends exactly the bytes consumed |
| `PngChunk.ReadInto` | src/png-chunk-processor.c:41-47 | the body is appended to the buffer only when it was read in full; the file advances by what was read |
| `PngChunk.NextChunkCases` | src/png-chunk-processor.c:44-56 | a short body read fails with -1; a full read returns the CRC verdict on the whole chunk |
| `PngChunk.ChunkIterator.constructor` | src/png-chunk-processor.c:16-28 | a new iterator is attached to no file |
| `PngChunk.ChunkIterator.Init` | src/png-chunk-processor.c:16-28 | -1 when the signature cannot be read, 1 when it is not the PNG signature, and 0 with the iterator positioned after it otherwise |
| `PngChunk.ChunkIterator.NextChunk` | src/png-chunk-processor.c:30-59 | reading a chunk returns the status, buffer contents, position and file offset that the chunk reader specification gives |
| `PngChunk.ChunkIterator.Destroy` | src/png-chunk-processor.c:61-65 | destroying detaches the iterator from its file |
| `PngChunk.NextChunkEnd` | src/png-chunk-processor.c:33-35 | the iterator reports the end exactly when fewer than four bytes remain, and then leaves the buffer alone |
| `PngChunk.EncodedAtFront` | src/png-chunk-processor.c:36-47 | at the head of a stream, an encoded chunk's length field announces its body and the chunk is read back whole |
| `PngChunk.NextChunkReadsEncoded` | src/png-chunk-processor.c:30-59 | a correctly encoded chunk with a matching CRC is read whole and accepted |
| `PngChunk.NextChunkRejectsBadCrc` | src/png-chunk-processor.c:49-56 | an encoded chunk whose CRC does not match is rejected |
| `PngChunk.NextChunkSuccess` | src/png-chunk-processor.c:30-59 | every accepted read is the encoding of a well-formed chunk whose CRC matches, taken from the front of the stream |
| `PngChunk.NextChunkWrappedLength` | src/png-chunk-processor.c:40-56 | a length field whose 32-bit body size wraps around makes the read fail |
| `StringBuffer.SkipSpaceFrom` | src/strbuf.c:114-117 | the scan stops at the first non-space byte at or after the start |
| `StringBuffer.SkipSpaceBack` | src/strbuf.c:143-146 | the backward scan stops just after the last non-space byte before the end |
| `StringBuffer.LeadingSpace` | src/strbuf.c:114-117 | counts the whitespace prefix, which is followed by a non-space byte or the end |
| `StringBuffer.TrailingSpace` | src/strbuf.c:143-146 | counts the whitespace suffix, which is preceded by a non-space byte or the start |
| `StringBuffer.TrimmedMeaning` | src/strbuf.c:107-150 | the trimmed text is the middle of the original, with only whitespace cut on either side, and starts and ends with a non-space byte; it is empty exactly when the text is all whitespace |
| `StringBuffer.FindFrom` | src/strbuf.c:194-196 | a found position holds the delimiter and is at or after the start |
| `StringBuffer.FindFromLeftmost` | src/strbuf.c:194-196 | the search finds the leftmost occurrence, and none exists when it fails |
| `StringBuffer.SplitFrom` | src/strbuf.c:194-210 | splitting always yields at least one piece |
| `StringBuffer.JoinSplitFrom` | src/strbuf.c:194-210 | joining the pieces with the delimiter gives back the text from the start position |
| `StringBuffer.SplitFromCount` | src/strbuf.c:194-210 | there is one piece more than there are delimiter occurrences |
| `StringBuffer.SplitFromPieces` | src/strbuf.c:194-210 | no piece contains the delimiter |
| `StringBuffer.SplitOnMeaning` | src/strbuf.c:182-213 | the pieces joined by the delimiter give back the buffer; there is one more piece than occurrences; no piece holds the delimiter |
| `StringBuffer.SkipLeadingSpace` | src/strbuf.c:114-117 | the loop counts exactly the leading whitespace of the contents |
| `StringBuffer.ZeroPrefix` | src/strbuf.c:120-122 | the first n bytes become NUL and the rest is unchanged |
| `StringBuffer.ShiftToFront` | src/strbuf.c:128-140 | the bytes from the first non-space byte to the end move to the front, followed by a NUL |
| `StringBuffer.ClearTrailingSpace` | src/strbuf.c:143-146 | exactly the trailing whitespace is overwritten, and a NUL follows the last non-space byte |
| `StringBuffer.Strbuf.Init` | src/strbuf.c:12-19 | a new buffer is empty, zero-filled and holds BUFF_SLOP bytes |
| `StringBuffer.Strbuf.Release` | src/strbuf.c:21-27 | releasing leaves an empty buffer with no storage |
| `StringBuffer.Strbuf.Grow` | src/strbuf.c:29-38 | contents are kept; storage is untouched when the size already fits, and otherwise becomes exactly the size |
| `StringBuffer.Strbuf.Attach` | src/strbuf.c:40-52 | appends the C string held in the first bufferLen bytes and keeps the terminator |
| `StringBuffer.Strbuf.AttachStr` | src/strbuf.c:54-57 | appends the C string and keeps the terminator |
| `StringBuffer.Strbuf.AttachBytes` | src/strbuf.c:98-105 | appends exactly bufferLen bytes, NULs included |
| `StringBuffer.Strbuf.Trim` | src/strbuf.c:107-150 | the contents become the trimmed contents, storage stays the same and the result is the number of bytes removed |
| `StringBuffer.Strbuf.Remove` | src/strbuf.c:152-171 | removes n bytes at pos, or truncates at pos when the range passes the end; nothing changes when pos is past the end or n is 0 |
| `StringBuffer.Strbuf.Clear` | src/strbuf.c:215-219 | clearing zeroes the storage and empties the buffer, keeping the allocation |
| `StringBuffer.Strbuf.Detach` | src/strbuf.c:173-180 | hands over the storage, which starts with the contents, and leaves an empty buffer |
| `StringBuffer.Strbuf.Split` | src/strbuf.c:182-213 | appends the pieces of the contents split on the delimiter, or the whole contents when the delimiter is absent or empty, and returns their number |
| `StringBuffer.InsertAtEnd` | src/strbuf.c:206 | inserting at the length appends the string |
| `StringBuffer.CStrOfBuffer` | src/strbuf.c:184-191 | a terminated, NUL-free buffer reads as exactly its contents |
| `StringArray.StrLeqTotal` | src/str-array.c:142-148 | any two strings are ordered one way or the other by the comparator |
| `StringArray.StrLeqTransitive` | src/str-array.c:142-148 | the comparator's order is transitive |
| `StringArray.StrLeqAntisymmetric` | src/str-array.c:142-148 | strings ordered both ways are equal |
| `StringArray.InsertionPoint` | src/str-array.c:150-154 | the insertion point follows every entry not greater than the new one, and the next entry is greater |
| `StringArray.SortByString` | src/str-array.c:150-154 | sorting yields a permutation of the entries |
| `StringArray.SortByStringSorted` | src/str-array.c:150-154 | the sorted entries are in comparator order |
| `StringArray.ShiftRight` | src/str-array.c:129-131 | entries from pos move one place up and those before pos stay |
| `StringArray.StringsOf` | include/str-array.h:30-34 | the strings are the entries' string fields, in order |
| `StringArray.FreshEntries` | src/str-array.c:100-107 | appending fresh entries appends their strings, keeps the old entries and gives the new ones no data |
| `StringArray.StrArray.Init` | src/str-array.c:11-14 | a new array is empty, unallocated and does not own its data |
| `StringArray.StrArray.Grow` | src/str-array.c:16-26 | storage is untouched when the size is within the length, and otherwise becomes exactly the size; the retained entries are kept |
| `StringArray.StrArray.Get` | src/str-array.c:40-46 | the string at pos, or nothing exactly when pos is past the end |
| `StringArray.StrArray.GetEntry` | src/str-array.c:48-54 | the entry at pos, whose string is the pos-th string, or nothing past the end |
| `StringArray.StrArray.SetNodup` | src/str-array.c:68-80 | replaces the entry at pos with the string and no data and returns 0; returns 1 and changes nothing past the end |
| `StringArray.StrArray.Set` | src/str-array.c:56-66 | like set_nodup, with the string copied |
| `StringArray.StrArray.VPush` | src/str-array.c:92-111 | appends the strings in order with no data, keeps the existing entries and returns their number |
| `StringArray.StrArray.Reserve` | src/str-array.c:98-99 | the storage has room for another entry and its NULL terminator, and the entries are kept |
| `StringArray.StrArray.PushOne` | src/str-array.c:100-107 | appends one entry with the string and no data |
| `StringArray.StrArray.Push` | src/str-array.c:82-90 | appends the strings in order and returns their number |
| `StringArray.StrArray.InsertNodup` | src/str-array.c:122-140 | inserts the string at pos, or appends it when pos is past the end, and returns where it went |
| `StringArray.StrArray.Insert` | src/str-array.c:113-120 | like insert_nodup, with the string copied |
| `StringArray.StrArray.Remove` | src/str-array.c:156-172 | removes and returns the string at pos, closing the gap, or returns nothing and changes nothing past the end |
| `StringArray.StrArray.Clear` | src/str-array.c:174-185 | empties the array, resetting the used entries and keeping the allocation |
| `StringArray.StrArray.DetachInternal` | src/str-array.c:197-230 | hands over the strings (or the data slots) in order with a NULL terminator and leaves the array in its initial state: empty, unallocated, not owning its data |
| `StringArray.StrArray.Detach` | src/str-array.c:187-190 | hands over the strings in order with a NULL terminator and returns the array to its initial state, not owning its data |
| `StringArray.StrArray.Sort` | src/str-array.c:150-154 | the entries become a sorted permutation of themselves |
| `Usage.ArgumentMatchesOption` | src/usage.c:124-172 | group and end descriptors are a BUG; a command matches its exact name; any other match needs a dash and at least two characters |
| `Usage.MatchesLong` | src/usage.c:145-157 | `--name` matches exactly the descriptor whose long flag is name |
| `Usage.MatchesOnlyDashed` | src/usage.c:140-141 | an argument without a leading dash matches no option |
| `Usage.MatchesCombined` | src/usage.c:160-166 | a combined short group matches a boolean whose letter occurs in it, and a valued option only in last place |
| `Usage.IsValidArgument` | src/usage.c:174-256 | the answer is the validity rule for operands, short, combined and long arguments |
| `Usage.ShortMatchIsValid` | src/usage.c:226-238 | a short argument that matches a descriptor is valid |
| `Usage.LongValidIffMatch` | src/usage.c:241-253 | a long argument is valid exactly when some descriptor matches it |
| `Usage.CombinedValidLetters` | src/usage.c:190-223 | in a valid combined group every letter before the last names a boolean option |
| `Usage.LongOnlyBoolMatchesAnyCombined` | src/usage.c:160-166 | as written, a boolean with no short letter matches every combined short argument, which the corrected matcher refuses |
| `Usage.AsWrittenAgreesOtherwise` | src/usage.c:124-172 | apart from that case, the matcher as written and the corrected one agree |
| `Usage.ArgumentMatchesOptionAsWritten` | src/usage.c:159-165 | as written, the matcher fails on the same descriptors as the corrected one and accepts every argument the corrected one accepts |
| `Usage.NoShortFlagNoShortMatch` | src/usage.c:160-169 | an option without a short letter never matches a short argument |
| `ParseOptions.Shift` | src/parse-options.c:363-374 | shifting n arguments out leaves n fewer |
| `ParseOptions.Shifted` | src/parse-options.c:363-374 | the shifted argument vector keeps its size |
| `ParseOptions.ShiftedHolds` | src/parse-options.c:363-374 | shifting the NULL-terminated vector removes exactly the shifted arguments and keeps the terminator |
| `ParseOptions.ArrayShift` | src/parse-options.c:363-374 | the array is shifted in place and the new length is returned; nothing changes when the index is past the end |
| `ParseOptions.TakeValue` | src/parse-options.c:89-141 | a value is taken exactly for string and list options and for integers that parse; one variable is written |
| `ParseOptions.LongStep` | src/parse-options.c:71-141 | a descriptor acts only when its long flag is a prefix of the argument; it consumes one or two arguments and writes its own variable |
| `ParseOptions.LongFrom` | src/parse-options.c:63-146 | the scan writes nothing exactly when it consumes nothing, and otherwise writes one descriptor's variable whose long flag prefixes the argument |
| `ParseOptions.LongOption` | src/parse-options.c:63-146 | consumes at most two arguments, and two only when a next argument exists |
| `ParseOptions.ParseLongOption` | src/parse-options.c:63-146 | the result is the long-option specification, and argv is shifted by the number consumed |
| `ParseOptions.ShortIntNext` | src/parse-options.c:180-206 | a short integer option takes the next argument exactly when it exists and parses as a number |
| `ParseOptions.ShortFrom` | src/parse-options.c:148-228 | consumes at most two arguments, and keeps what was written earlier |
| `ParseOptions.ShortOps` | src/parse-options.c:152-224 | consumes at most two arguments, and keeps what was written earlier |
| `ParseOptions.ShortOption` | src/parse-options.c:148-228 | consumes at most two arguments, and two only when a next argument exists |
| `ParseOptions.ParseShortOption` | src/parse-options.c:148-228 | the result is the short-option specification, and argv is shifted by the number consumed |
| `ParseOptions.SubcommandFrom` | src/parse-options.c:230-248 | a subcommand is found exactly when a command descriptor has that name, and then only that command's flag is set |
| `ParseOptions.ParseSubcommand` | src/parse-options.c:230-248 | reports the subcommand specification |
| `ParseOptions.OptionStep` | src/parse-options.c:40-51 | one step never consumes past the end |
| `ParseOptions.ParseKeepsPassed` | src/parse-options.c:18-61 | arguments before the current index stay where they are |
| `ParseOptions.ParseFrom` | src/parse-options.c:30-58 | the loop never adds an argument and only appends to the writes already made |
| `ParseOptions.Parse` | src/parse-options.c:18-61 | parsing never adds an argument, and skipping the program name leaves strictly fewer |
| `ParseOptions.ParseFromStep` | src/parse-options.c:40-57 | after a step the parse continues on the shifted vector, stops at an unknown argument, or skips it |
| `ParseOptions.ParseArgument` | src/parse-options.c:40-51 | a plain argument naming a command is a subcommand; otherwise the result is the option step, with argv shifted accordingly |
| `ParseOptions.ParseOptions` | src/parse-options.c:18-61 | a negative count is a BUG; otherwise argv ends holding exactly the arguments the parse specification leaves, and the writes are the specification's |
| `ParseOptions.ParseTurn` | src/parse-options.c:32-58 | one loop turn either ends the parse with its result or continues it on a shorter remainder |
| `ParseOptions.LastString` | src/parse-options.c:208-214 | the final value of a string option is the one written last: some write stores it and no later write stores through that option; it is absent only when none was written |
| `ParseOptions.Pushed` | src/parse-options.c:216-222 | the list holds exactly the values pushed for that option |
| `ParseOptions.PushedOne` | src/parse-options.c:216-222 | one push adds its value to its own option's list and to no other |
| `ParseOptions.PushedAppend` | src/parse-options.c:216-222 | the list of later writes follows the list of earlier ones: values keep their order and their number |
| `ParseOptions.LongSkipsUnrelated` | src/parse-options.c:69-87 | descriptors whose long flag does not prefix the argument are skipped |
| `ParseOptions.LongBoolFlag` | src/parse-options.c:75-78 | `--name` sets the boolean named name and consumes one argument |
| `ParseOptions.LongAttachedValue` | src/parse-options.c:117-141 | `--name=value` gives value to the option named name and consumes one argument |
| `ParseOptions.LongSeparateValue` | src/parse-options.c:89-116 | `--name value` gives value to the option named name and consumes two arguments |
| `ParseOptions.LongValueMissing` | src/parse-options.c:89-98 | a valued long option in last place has no value and consumes nothing |
| `ParseOptions.FirstLetter` | src/parse-options.c:152-163 | the first option descriptor with that letter, skipping commands and groups; nothing when there is none |
| `ParseOptions.ShortReachesFirst` | src/parse-options.c:152-163 | the search for a letter skips straight to the first descriptor that carries it |
| `ParseOptions.ShortUnknownLetter` | src/parse-options.c:156-163 | an unknown letter consumes nothing and writes nothing more |
| `ParseOptions.BoolEffects` | src/parse-options.c:165-168 | each letter of a boolean group sets its own option, in order |
| `ParseOptions.ShortBoolsFrom` | src/parse-options.c:148-228 | a run of boolean letters sets each option in order and consumes one argument |
| `ParseOptions.ShortCombinedBools` | src/parse-options.c:148-228 | `-abc` with boolean letters sets each flag in order and consumes one argument |
| `ParseOptions.ShortValueRefused` | src/parse-options.c:170-178 | a string or list letter not in last place, or without a next argument, consumes nothing |
| `ParseOptions.ShortSeparateValue` | src/parse-options.c:208-214 | `-c value` gives value to the string option c and consumes two arguments |
| `ParseOptions.ShortAttachedInt` | src/parse-options.c:180-206 | `-cNNN` gives the parsed number to integer option c, or consumes nothing when it does not parse |
| `ParseOptions.ShortValueMissing` | src/parse-options.c:170-206 | a valued short option in last place consumes nothing |
| `ParseOptions.SubseqRefl` | src/parse-options.c:363-374 | every argument list is a subsequence of itself |
| `ParseOptions.SubseqTrans` | src/parse-options.c:363-374 | the subsequence relation is transitive |
| `ParseOptions.ShiftIsSubseq` | src/parse-options.c:363-374 | shifting arguments out leaves a subsequence of the original |
| `ParseOptions.ParseKeepsOrder` | src/parse-options.c:18-61 | the arguments left after parsing are a subsequence of the input, in order |
| `ParseOptions.StopLeavesTail` | src/parse-options.c:18-61 | when parsing stops at unknown arguments, what is left is a suffix of the input |
| `ParseOptions.ParseWithStopLeavesTail` | src/parse-options.c:18-61 | the same holds with the program name skipped |
| `ParseOptions.SeparatorStops` | src/parse-options.c:34-37 | wherever the loop meets `--`, that argument alone is removed, the parse ends and the arguments before and after it stay, with nothing more written |
| `ParseOptions.SubcommandStops` | src/parse-options.c:40-51 | wherever the loop meets a plain argument naming a command, the first such descriptor's flag is set (if it has one) and the parse ends with every argument in place, whatever stop-on-unknown says |
| `ParseOptions.SubcommandSkips` | src/parse-options.c:230-248 | non-command descriptors never match a subcommand |
| `ParseOptions.StopAtOperand` | src/parse-options.c:40-57 | wherever the loop meets a plain argument that is not a command, nothing is written: with stop-on-unknown the parse ends with every argument in place, without it the loop steps over the argument |
| `ParseOptions.LongFromAsWritten` | src/parse-options.c:63-146 | as written, consumes at most two arguments, and two only when a next argument exists |
| `ParseOptions.LongCarried` | src/parse-options.c:81-119 | as written, the text compared with the next descriptor is the argument's own text, the next argument, or the tail after `=`; it changes only when this descriptor's long flag begins it |
| `ParseOptions.LongReassignSetsOtherFlag` | src/parse-options.c:117-141 | as written, `--quiet=help` sets the `help` flag, where the corrected parser matches nothing |
| `ParseOptions.ShortIntNextReadsTerminator` | src/parse-options.c:193-197 | as written, a short integer option in last place reads the NULL terminator; elsewhere it agrees with the corrected step |
| `ParseOptions.ShortIntNextAsWritten` | src/parse-options.c:193-197 | as written, the outcome is undefined exactly when the next slot is the NULL terminator, and otherwise consumes none or both arguments |
| `Embed.FirstIend` | src/builtin/embed.c:285-293 | the first IEND chunk in the list, or the end when there is none |
| `Embed.ConcatSplit` | src/builtin/embed.c:274-300 | the chunks before a point followed by those after it give the whole stream |
| `Embed.CopyAtEnd` | src/builtin/embed.c:274-303 | at the end of the stream the copy succeeds exactly when IEND was seen, and otherwise dies |
| `Embed.CopyChunks` | src/builtin/embed.c:256-307 | the copy stops only on a corrupt chunk, a missing IEND, an invalid type, a second IEND, or the failure of building the new chunk |
| `Embed.Walk` | src/png-chunk-processor.c:30-59 | every chunk read takes at least twelve bytes of the stream |
| `Embed.EmbedOutput` | src/builtin/embed.c:256-307 | whatever the run writes is empty or starts with the PNG signature |
| `Embed.WalkStep` | src/builtin/embed.c:274-280 | walking a stream lists the chunk just read, then the rest |
| `Embed.CopyStepOther` | src/builtin/embed.c:296-299 | a chunk other than IEND is copied unchanged before the rest |
| `Embed.CopyStepIend` | src/builtin/embed.c:285-293 | at IEND the new chunk is written, then IEND, then the rest |
| `Embed.CopyChunksSucceeds` | src/builtin/embed.c:256-307 | the copy succeeds exactly when every chunk reads cleanly with a valid type and there is exactly one IEND |
| `Embed.CopyChunksWritten` | src/builtin/embed.c:256-307 | on success the output is the chunks before the first IEND, the new chunk, then the chunks from IEND on |
| `Embed.WalkCovers` | src/png-chunk-processor.c:30-59 | a clean walk covers the stream except for fewer than four trailing bytes |
| `Embed.EmbedOutputSucceeds` | src/builtin/embed.c:256-307 | embedding succeeds exactly when the input has the PNG signature, reads cleanly, has one IEND and the new chunk was built |
| `Embed.EmbedOutputWritten` | src/builtin/embed.c:256-307 | on success the output is the input with the new chunk inserted just before IEND, less at most three trailing bytes |
| `Embed.MessageChunk` | src/builtin/embed.c:309-328 | a message chunk is 12 bytes longer than the message |
| `Embed.MessageChunkIsChunk` | src/builtin/embed.c:309-328 | the message chunk is the encoding of a stEG chunk with a matching CRC and is read back whole |
| `Embed.ComputeChunkData` | src/builtin/embed.c:309-328 | appends the message chunk of the C string to the buffer |
| `Embed.BlockStep` | src/builtin/embed.c:211-219 | each block read advances the running CRC toward the CRC of the whole file |
| `Embed.CountStep` | src/builtin/embed.c:211-219 | the running 32-bit byte count stays the count of the bytes read so far |
| `Embed.CrcBlocksStep` | src/builtin/embed.c:211-219 | the blockwise CRC of the data is the CRC of the rest after folding in its first block |
| `Embed.CrcBlocksSplit` | src/builtin/embed.c:211-219 | folding the CRC over whole blocks and then the rest equals folding it over everything |
| `Embed.FileChunkMeaning` | src/builtin/embed.c:194-231 | the file chunk fails exactly when the stat size differs from the bytes read, modulo 2^32; otherwise it is the encoding of a stEG chunk that is accepted exactly when the CRCs agree |
| `Embed.FileChunk` | src/builtin/embed.c:194-231 | the file chunk ends with the four CRC bytes exactly when the byte count matches the stat size modulo 2^32, and otherwise stops after the size, type and bytes with the size-mismatch error |
| `Embed.Wrap32Add` | src/builtin/embed.c:216 | adding after 32-bit reduction gives the same result as reducing the sum |
| `Embed.CopyFileBlocks` | src/builtin/embed.c:211-219 | copies the whole file to the output and returns its 32-bit size and blockwise CRC |
| `Embed.WriteFileChunk` | src/builtin/embed.c:194-231 | writes the file chunk specification's bytes and reports its failure |
| `Embed.ReadTurn` | src/builtin/embed.c:274-293 | one iteration ends, fails or reads a chunk, as the copy specification says, and consumes input when it reads |
| `Embed.CopyMessageChunks` | src/builtin/embed.c:274-303 | the output and failure are those of the copy specification |
| `Embed.EmbedMessageChunk` | src/builtin/embed.c:256-307 | the output and failure are those of the embed specification |
| `Embed.CopyFileChunks` | src/builtin/embed.c:183-241 | the output and failure are those of the copy specification with the file chunk |
| `Embed.EmbedFile` | src/builtin/embed.c:135-254 | the output and failure are those of the embed specification with the file chunk |
| `Embed.EmbedMessage` | src/builtin/embed.c:78-133 | the output and failure are those of the embed specification with the message chunk |
| `Embed.EmbedMessageAsWritten` | src/builtin/embed.c:116-120 | as written, the raw message bytes are spliced in instead of the chunk |
| `Embed.IendChunk` | src/builtin/embed.c:285-293 | an IEND chunk is 12 bytes long |
| `Embed.IendChunkReads` | src/png-chunk-processor.c:30-59 | the empty IEND chunk has a zero length field, has type IEND and is read whole |
| `Embed.CopyOverIend` | src/builtin/embed.c:285-293 | copying a lone IEND writes the new chunk and then IEND |
| `Embed.EmbedIntoMinimal` | src/builtin/embed.c:256-307 | embedding into a minimal PNG gives the signature, the new chunk and IEND |
| `Embed.RawMessageBreaksOutput` | src/builtin/embed.c:116-120 | as written, embedding "hi" produces an output whose chunks cannot be read |
| `Embed.MisreadLength` | src/builtin/embed.c:116-120 | the raw message bytes are taken as a chunk length and the walk fails |
| `Embed.MessageChunkReadsBack` | src/builtin/embed.c:116-120 | with the chunk spliced in, the output reads as the stEG chunk followed by IEND |
| `Extract.Then` | src/builtin/extract.c:127-151 | prefixing output keeps success and failure and puts the bytes first |
| `Extract.EndOfWalk` | src/builtin/extract.c:110-164 | the walk succeeds exactly when it ended cleanly after IEND, with nothing more to write |
| `Extract.ExtractSpec` | src/builtin/extract.c:59-205 | success needs a readable PNG and non-empty recovered data; the destination is the output path (or input + ".out") unless only a hexdump was asked for |
| `Extract.ThenThen` | src/builtin/extract.c:127-151 | two prefixes in a row are one prefix |
| `Extract.InflateChunk` | src/builtin/extract.c:124-152 | inflating one stEG chunk block by block leaves the extraction where the specification continues, or fails fatally |
| `Extract.DrainBlock` | src/builtin/extract.c:127-151 | one block read either inflates and continues, or fails fatally |
| `Extract.WalkChunks` | src/builtin/extract.c:108-171 | the chunk walk returns the recovery specification |
| `Extract.ExtractFile` | src/builtin/extract.c:59-205 | the result is the extraction specification |
| `Extract.RecoverReadsOnlySteg` | src/builtin/extract.c:108-156 | recovery depends only on the chunk types and the stEG data |
| `Extract.DrainReadsOnlySteg` | src/builtin/extract.c:124-152 | inflating a stEG chunk depends only on the chunk types and the stEG data |
| `Extract.RecoverOkShape` | src/builtin/extract.c:108-171 | recovery succeeds only on a cleanly ending stream whose one IEND is last |
| `Extract.DrainOkShape` | src/builtin/extract.c:124-171 | the same holds from within a stEG chunk |
| `Extract.Recover` | src/builtin/extract.c:108-171 | the walk fails only for a missing IEND, a parse failure, a second IEND or an inflate failure |
| `Extract.Drain` | src/builtin/extract.c:124-152 | the same holds from within a stEG chunk |
| `Extract.IendTwiceFrom` | src/builtin/extract.c:117-118 | an IEND followed by another chunk dies |
| `Extract.IendTwiceDrain` | src/builtin/extract.c:117-118 | the same holds from within a stEG chunk |
| `Extract.NoIendFrom` | src/builtin/extract.c:163-164 | a clean stream without IEND dies |
| `Extract.NoIendDrain` | src/builtin/extract.c:163-164 | the same holds from within a stEG chunk |
| `Extract.StegPayloads` | src/builtin/extract.c:124 | there are no more stEG payloads than chunks |
| `Extract.InflatedThen` | src/builtin/extract.c:127-151 | prefixing output commutes with inflating |
| `Extract.DrainInflates` | src/builtin/extract.c:127-151 | inflating a chunk's data block by block is inflating all of it, then continuing |
| `Extract.StegPayloadsCons` | src/builtin/extract.c:124 | a chunk adds its data to the payloads exactly when it is stEG |
| `Extract.DecodeAllCons` | src/builtin/extract.c:127-151 | decoding a list of payloads is decoding the first, then the rest |
| `Extract.RecoverDecodes` | src/builtin/extract.c:108-171 | for a well-formed stream, recovery is the inflation of the stEG payloads, in order |
| `Extract.ExtractWellFormed` | src/builtin/extract.c:59-205 | for a well-formed PNG the result is the inflated payloads; it is a clean-input error when they are empty and fatal when inflation fails |
| `Extract.NoStegIsClean` | src/builtin/extract.c:170-171 | a well-formed PNG without stEG chunks is reported as clean |
| `Extract.NoStegPayloads` | src/builtin/extract.c:124 | no stEG chunks, no payloads |
| `Inspect.WalkFailure` | src/builtin/inspect.c:203-216 | the walk succeeds exactly when the iterator opens and ends cleanly |
| `Inspect.Keys` | src/builtin/inspect.c:218-219 | each chunk's key is its type as a C string, in order |
| `Inspect.FindFrom` | src/builtin/inspect.c:221-231 | finds the first tally with the key at or after the start, or reports there is none |
| `Inspect.EntriesOf` | src/builtin/inspect.c:221-240 | each tally becomes an entry holding the type and its count |
| `Inspect.LastKeyDropped` | src/builtin/inspect.c:211-241 | a non-empty key list is its front followed by its last key |
| `Inspect.CountedEntries` | src/builtin/inspect.c:221-240 | counting a key keeps keys distinct and in place, and adds the key at the end only when it is new |
| `Inspect.HistogramKeys` | src/builtin/inspect.c:200-244 | the histogram has one entry per distinct chunk type, and only those |
| `Inspect.HistogramCounts` | src/builtin/inspect.c:200-244 | each count is the number of chunks of that type |
| `Inspect.HistogramOrder` | src/builtin/inspect.c:200-244 | types appear in order of their first occurrence |
| `Inspect.TotalAppend` | src/builtin/inspect.c:233-240 | a new tally adds its count to the total |
| `Inspect.TotalBump` | src/builtin/inspect.c:226-229 | incrementing a tally adds one to the total |
| `Inspect.HistogramTotal` | src/builtin/inspect.c:200-244 | the counts add up to the number of chunks |
| `Inspect.HistogramSize` | src/builtin/inspect.c:200-244 | the histogram has no more entries than chunks, and at least one when there is a chunk |
| `Inspect.CountType` | src/builtin/inspect.c:221-240 | the array's entries become the histogram with one more occurrence of the key |
| `Inspect.FindFromSkips` | src/builtin/inspect.c:221-231 | the search skips tallies that do not hold the key |
| `Inspect.GetChunkTypes` | src/builtin/inspect.c:200-244 | reports the walk failure, and otherwise fills the array with the chunk-type histogram |
| `Inspect.IsFiltered` | src/builtin/inspect.c:150-164 | a chunk is filtered out exactly when it is not shown under the type list and the critical/ancillary switches |
| `Inspect.ShownChunksFilter` | src/builtin/inspect.c:139-190 | the listing is the chunks that pass the filters; with no filters it is every chunk |
| `Inspect.ShownChunksSnoc` | src/builtin/inspect.c:139-190 | one more chunk adds itself to the listing exactly when it passes the filters |
| `Inspect.ListChunks` | src/builtin/inspect.c:131-192 | the listing is the specification's: the walk failure, or the chunks shown |
| `Inspect.ListingSpec` | src/builtin/inspect.c:131-192 | the listing succeeds exactly for a readable PNG that walks cleanly, and then holds exactly the chunks the filter shows |
| `Inspect.PrintPngSummary` | src/builtin/inspect.c:93-198 | the summary is the histogram from the first walk and the listing from the second, or the first failure |
| `Inspect.SummarySpec` | src/builtin/inspect.c:93-198 | the summary succeeds exactly when both walks end cleanly; the histogram is no longer than the chunk list and empty only for an empty one |
| `Inspect.SummaryOfUnchangedFile` | src/builtin/inspect.c:93-198 | when both walks see the same file, the summary succeeds exactly when the walk does and lists the shown chunks |
| `Commands.CmdExtract` | src/builtin/extract.c:20-57 | the action is the extract command specification, and argv holds the arguments left after parsing |
| `Commands.CmdInspect` | src/builtin/inspect.c:17-72 | the action is the inspect command specification, and argv holds the arguments left after parsing |
| `Commands.CmdEmbed` | src/builtin/embed.c:34-76 | the action is the embed command specification, and argv holds the arguments left after parsing |
| `Commands.ExtractCommand` | src/builtin/extract.c:20-57 | the exit status is 0 or 1, and the input path is the last argument |
| `Commands.InspectCommand` | src/builtin/inspect.c:17-72 | the exit status is 0 or 1, and the input path is the last argument |
| `Commands.EmbedCommand` | src/builtin/embed.c:34-76 | the exit status is 0 or 1, and the input path is the last argument |
| `Commands.NoSubcommand` | src/parse-options.c:230-248 | without command descriptors no subcommand is found |
| `Commands.StopsAtOperand` | src/parse-options.c:40-57 | the sub-commands' parse stops at their first operand |
| `Commands.ShortValueStep` | src/parse-options.c:208-214 | `-c value` writes value to option c and parsing continues after it |
| `Commands.ShortFlagStep` | src/parse-options.c:165-168 | `-c` sets flag c and parsing continues after it |
| `Commands.LongFlagStep` | src/parse-options.c:75-78 | `--name` sets the flag and parsing continues after it |
| `Commands.LongListStep` | src/parse-options.c:89-116 | `--name value` pushes value to the list and parsing continues after it |
| `Commands.LongFlagFirst` | src/parse-options.c:75-78 | a leading `--name` sets its flag |
| `Commands.ExtractHasNoSubcommand` | src/builtin/extract.c:33-38 | extract declares no command descriptors |
| `Commands.ExtractNothing` | src/builtin/extract.c:51-54 | extract with no file exits with 1 |
| `Commands.ExtractLoneFile` | src/builtin/extract.c:20-57 | extract with one file runs with no output path and no hexdump |
| `Commands.ExtractFileThenMore` | src/builtin/extract.c:46-49 | extract with more than one operand exits with 1 |
| `Commands.ExtractHelp` | src/builtin/extract.c:41-44 | `--help` exits with 0 |
| `Commands.ExtractHexdump` | src/builtin/extract.c:33-38 | `--hexdump file` runs with the hexdump on |
| `Commands.ExtractOutput` | src/builtin/extract.c:33-38 | `-o path file` runs with that output path |
| `Commands.InspectHasNoSubcommand` | src/builtin/inspect.c:34-42 | inspect declares no command descriptors |
| `Commands.InspectNothing` | src/builtin/inspect.c:57-61 | inspect with no file exits with 1 |
| `Commands.InspectLoneFile` | src/builtin/inspect.c:17-72 | inspect with one file prints the unfiltered summary |
| `Commands.InspectFileThenMore` | src/builtin/inspect.c:51-55 | inspect with more than one operand exits with 1 |
| `Commands.InspectHelp` | src/builtin/inspect.c:44-49 | `--help` exits with 0 |
| `Commands.InspectInteractive` | src/builtin/inspect.c:63-66 | `-i file` runs the interactive mode |
| `Commands.InspectFilter` | src/builtin/inspect.c:34-42 | `--filter type file` summarises with that type as the filter |
| `Commands.InspectFilterParse` | src/builtin/inspect.c:34-42 | `--filter type file` pushes the type and leaves the file |
| `Commands.InspectCritical` | src/builtin/inspect.c:34-42 | `--critical file` summarises critical chunks only |
| `Commands.InspectCriticalParse` | src/builtin/inspect.c:34-42 | `--critical file` sets the critical flag and leaves the file |
| `Commands.EmbedHasNoSubcommand` | src/builtin/embed.c:47-54 | embed declares no command descriptors |
| `Commands.EmbedNothing` | src/builtin/embed.c:62-65 | embed with no file exits with 1 |
| `Commands.EmbedLoneFile` | src/builtin/embed.c:72-75 | embed with one file and no `-m` embeds the message read from standard input (embed.c:102-108) into file + ".steg" |
| `Commands.EmbedFileThenMore` | src/builtin/embed.c:62-65 | embed with more than one operand exits with 1 |
| `Commands.EmbedHelp` | src/builtin/embed.c:57-60 | `--help` exits with 0 |
| `Commands.EmbedMessageOption` | src/builtin/embed.c:47-54 | `-m msg file` embeds msg into file + ".steg" |
| `Commands.EmbedFileOption` | src/builtin/embed.c:47-54 | `-f path file` embeds that file into file + ".steg" |
| `Commands.EmbedFileAndMessage` | src/builtin/embed.c:67-70 | a file and a message together exit with 1 |
| `Commands.EmbedFileAndMessageParse` | src/builtin/embed.c:47-54 | `-f g -m m file` writes both values and leaves the file |
| `Commands.EmbedOutput` | src/builtin/embed.c:47-54 | `-o path -m msg file` embeds msg into path |
| `Commands.EmbedOutputParse` | src/builtin/embed.c:47-54 | `-o path -m msg file` writes both values and leaves the file |
| `LegacyMain.IendAtIsIendType` | src/main.c:134-157 | the byte test for "IEND" matches the IEND type |
| `LegacyMain.IendScan` | src/main.c:134-157 | finds the first "IEND" at or after the start, or reports there is none |
| `LegacyMain.MemChr` | src/main.c:136 | finds the first occurrence of the byte, or reports there is none |
| `LegacyMain.ScanSkips` | src/main.c:134-157 | the scan skips positions that do not hold "IEND" |
| `LegacyMain.FindIend` | src/main.c:134-157 | the scan loop finds the first "IEND", exactly when there is one |
| `LegacyMain.Splice` | src/main.c:162-173 | splicing adds exactly the chunk's length |
| `LegacyMain.SpliceRemoved` | src/main.c:162-173 | the chunk sits at the insert point, and removing it gives back the input |
| `LegacyMain.InsertPoint` | src/main.c:159-162 | the insert point is four bytes before the first "IEND", and there is none when no "IEND" is found or it lies within the first four bytes |
| `LegacyMain.InsertPointAsWritten` | src/main.c:159-162 | as written, the insert point is four bytes before the first "IEND", whatever its index |
| `LegacyMain.IendAtStartInsertsBeforeBuffer` | src/main.c:162 | as written, "IEND" at index 0 gives insert point -4, before the buffer |
| `LegacyMain.InsertPointsAgree` | src/main.c:159-162 | the corrected and as-written insert points agree except where the latter is negative |
| `LegacyMain.ChunkPrecedesIend` | src/main.c:162-173 | after splicing, the input from the insert point on follows the chunk and "IEND" is still in place |
| `LegacyMain.ReadAll` | src/main.c:121-126 | reading to the end appends the whole remaining input |
| `LegacyMain.EmbedMessageLegacy` | src/main.c:101-183 | without an insert point the run is fatal and writes nothing; otherwise the output is the input with the host-order chunk of `compute_chunk_data` spliced in, as written |
| `LegacyMain.ReadInput` | src/main.c:120-126 | returns the whole remaining input |
| `LegacyMain.ChunkData` | src/main.c:128-131 | the chunk is main.c's own host-order chunk of the C string (length and CRC as they lie in memory) |
| `LegacyMain.WriteSpliced` | src/main.c:162-173 | writes the input with the chunk spliced in at the point |
| `LegacyMain.EmbedLength` | src/main.c:162-173 | the output is 12 bytes plus the message longer than the input, with the host-order chunk as written and with the network-order one |
| `LegacyMain.HostOrderChunk` | src/main.c:185-200 | as written, a host-order chunk is still 12 bytes longer than the message |
| `LegacyMain.ComputeChunkDataHostOrder` | src/main.c:185-200 | as written, appends the host-order chunk of the C string |
| `LegacyMain.HostOrderSameLayout` | src/main.c:185-200 | the host-order chunk differs from the network-order one only in the length and CRC fields |
| `LegacyMain.HostOrderLengthMisread` | src/main.c:192-195 | a one-byte message's length field reads as 16777216 instead of 1 |
| `LegacyMain.Decide` | src/main.c:77-98 | a stopped scan returns its status; both modes, embedding without a message, or no input file each give status 1; extract alone with a file runs extract on it; otherwise a message and a file run embed |
| `LegacyMain.ScanFrom` | src/main.c:46-75 | a stopped scan has status 0 or 1; flags once set stay set; the message and file are either the starting ones or arguments from the scan's start on |
| `LegacyMain.DispatchAsWritten` | src/main.c:34-99 | fewer than two arguments exit 0; any exit is 0 or 1; the file and message run come from the whole vector, program name included |
| `LegacyMain.Dispatch` | src/main.c:34-99 | fewer than two arguments exit 0; any exit is 0 or 1; the file and message run come from the arguments after the program name |
| `LegacyMain.ParseMainArguments` | src/main.c:34-99 | the action is the dispatch specification |
| `LegacyMain.ExtractMessage` | src/main.c:202-205 | extraction is not implemented and always fails |
| `LegacyMain.ScanIgnoresFirst` | src/main.c:46-75 | the argument scan from index 1 does not depend on argv[0] |
| `LegacyMain.DispatchIgnoresProgramName` | src/main.c:34-99 | the corrected dispatch does not depend on the program name |
| `LegacyMain.PlainMatchesNothing` | src/main.c:21-27 | an argument without a leading dash matches no option |
| `LegacyMain.NoArgumentsShowsUsage` | src/main.c:37-40 | with no arguments the usage is shown and the exit status is 0 |
| `LegacyMain.MessageDefaultsToEmbed` | src/main.c:82-83 | a message without a mode runs embed |
| `LegacyMain.BothModesFail` | src/main.c:77-80 | `--embed --extract` fails with 1 |
| `LegacyMain.ExtractModeFails` | src/main.c:64-67 | `--extract file` runs extract, which fails |
| `LegacyMain.MessageWithoutValueFails` | src/main.c:54-61 | `-m` in last place fails with 1 |
| `LegacyMain.EmbedWithoutMessageFails` | src/main.c:85-88 | embed without a message fails with 1 |
| `LegacyMain.HelpShowsUsage` | src/main.c:69-72 | `-h` shows the usage and exits with 0 |
| `LegacyMain.LastFileWins` | src/main.c:74 | of several file operands the last is used |
| `LegacyMain.ProgramNameTakenAsFile` | src/main.c:46 | as written, `prog -m msg` embeds into the program file; the corrected dispatch fails for want of a file |

## Left out

- Failures of `open`, `fstat`, `lstat`, `mkstemp`, `lseek`, `unlink` and of
  reads and writes are left out. Files are byte strings read in order, and
  the EAGAIN/EINTR retry loops of `recoverable_read`/`recoverable_write`
  always succeed.
- Everything printed is left out: help and usage text, `print_summary`,
  the MD5 digests, the hex dumps and the inspect summary tables. The
  commands return what they would print from.
- zlib's inflate is an abstract `inflate(fed, block)` parameter. The model
  passes it every byte fed so far, so it stands for the stream state.
- CRC-32 (`crc32` and `crc32_update`) is an uninterpreted parameter. No law
  links the one-shot and incremental forms. `Embed.FileChunkMeaning` states
  the file chunk's validity as an equality of the two.
- `strtol` is an abstract parser parameter. Range errors are part of its
  "does not parse" answer.
- The interactive inspect mode (`cmd_inspect_interactive`) is not part of
  this model. `Commands.CmdInspect` only selects it.
- The chunk-iterator functions used by `extract` and `inspect` are not
  part of this model's source. `ChunkCursor.Cursor` models them
  abstractly: critical/ancillary are given flags, and the file is a given
  list of parsed chunks.
- Memory exhaustion (`xmalloc`/`xrealloc` dying) is left out.
- `strbuf_attach_fmt`, `strbuf_attach_chr` and `str_array_release` are not
  part of this model. Only the `"%s.steg"` / `"%s.out"` output paths
  built with `strbuf_attach_fmt` are modelled, by `Common.OutputPath`.
- `str_array_insert` and `str_array_set` copy their string with `strdup`.
  Strings are values here, so the copy and the no-copy variants have the
  same contract.
- When `embed` gets no message, it reads one from standard input. The
  model takes that input as a given byte string.
- A sub-command's `arg_value` pointer is modelled by `hasValue`. A
  descriptor without one writes nothing.
- `embed` writes straight to the output path. The output left behind after
  a DIE in the middle of a run is the prefix already written, and the model
  reports that prefix. No temporary file is involved.
- `extract` writes to a temporary file and copies it. The model returns
  the recovered bytes and the destination path instead of doing the copy.
- The legacy front end's `--embed`/`--extract` matching uses the corrected
  `argument_matches_option`, and host byte order is taken to be
  little-endian.
- Common.Latin1: only states that the length is kept. Characters above
  255 are not reduced to bytes the way a C `char` would be.
- PngChunk.ChunkIterator.NextChunk: the strbuf's storage growth is not
  stated, only its contents.
- The header comment of `parse_options` says stop-on-unknown keeps
  parsing. The code stops at the first unknown argument, and the model
  follows the code.

## Findings

| source | as written | input that shows it | evidently intended | confidence | as-written member | corrected member |
|---|---|---|---|---|---|---|
| src/builtin/embed.c:116-120 | `embed_message` builds the chunk in `chunk_data` but passes the raw message to `embed_message_chunk` | message "hi" into a minimal PNG: the bytes `hi` are spliced before IEND and the result's chunk walk fails | splice the encoded `stEG` chunk | high (not executed) | `Embed.RawMessageBreaksOutput` | `Embed.MessageChunkReadsBack` |
| src/png-chunk-processor.c:80 | the bound check compares the loop index `i`, not `4 + i`, with the length | a 5-byte chunk followed in memory by "IEND" is reported as type IEND | refuse chunks shorter than 8 bytes | high (not executed) | `PngChunk.ParseTypeReadsPastContents` | `PngChunk.ParseType` |
| src/parse-options.c:94 | `arg` is reassigned to the value, so later descriptors are compared against the value | `--quiet=help` with boolean options `quiet` and `help` sets `help` | stop at the first descriptor that consumes the argument | medium (not executed) | `ParseOptions.LongReassignSetsOtherFlag` | `ParseOptions.LongOption` |
| src/parse-options.c:195 | a short integer option in last place reads `argv[arg_index + 1]`, the NULL terminator | `-n` as the last argument for an integer option `n` | report a missing value | high (not executed) | `ParseOptions.ShortIntNextReadsTerminator` | `ParseOptions.ShortIntNext` |
| src/usage.c:162 | `strchr(arg, desc->short_flag)` with a `'\0'` short flag is never NULL | a boolean with only a long flag matches `-xy` | no short letter, no short match | high (not executed) | `Usage.LongOnlyBoolMatchesAnyCombined` | `Usage.NoShortFlagNoShortMatch` |
| src/main.c:46 | the argument loop starts at `argv[0]`, the program name | `prog -m msg` embeds into the file named `prog` | start at `argv[1]` | high (not executed) | `LegacyMain.ProgramNameTakenAsFile` | `LegacyMain.DispatchIgnoresProgramName` |
| src/main.c:192-197 | the length and CRC are copied in host byte order | a one-byte message on a little-endian host gets length 16777216 | network byte order, as section 3.2 of RFC 2083 requires | high (not executed) | `LegacyMain.HostOrderLengthMisread` | `Embed.MessageChunkIsChunk` |
| src/main.c:162 | the insert point is the IEND index minus 4, with no lower bound | an input starting with "IEND" gives insert point -4 | refuse an IEND that lacks a length field before it | medium (not executed) | `LegacyMain.IendAtStartInsertsBeforeBuffer` | `LegacyMain.ChunkPrecedesIend` |
