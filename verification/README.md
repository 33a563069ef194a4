# sancus-core, modelled and verified

Five parts of sancus-core are algorithms over bytes, linked nodes or fixed-width
numbers, and are modelled here in Dafny 4.11. `dafny verify dfyconfig.toml` checks all
of it.

- **Netlink messages and attributes** (`NetlinkMsg`, `NetlinkAttr`, `NetlinkRoundTrip`,
  `NetlinkTyped`, over `HostOrder`). Messages are written and walked in place in an
  `array<byte>`; the layout is that of section 2.2 of RFC 3549. Integers are stored in
  the byte order of the machine, which is a parameter (`Endian`), so everything holds
  on both. The main results: the attribute loop over arbitrary bytes makes the only
  walk there is and never leaves the message (`LoopMakesTheOnlyWalk`, `Parse`); what any
  run of typed puts stores is what the loop delivers, in order, and what the getters
  return (`BuildThenWalk`, `TypedRoundTrip`, and `BuildAndParse` with the methods
  themselves on one array).
- **Escaping, dumping and logging** (`Escape`, `FmtCstr`, `TextBuffer`, `Logger`, `Dump`,
  `HexDump`). Two escape codes with one decoder that undoes both; the bounded text
  buffer; how a record is composed of prefix, message and data; the quoted dump with its
  block-wise encoding and truncation (`TruncationIsTight`, `RenderedReads`,
  `SameTextIff`); the hexdump, which is complete exactly when its longest line fits
  the buffer (`DumpSurvives`) and then gives the data back (`DumpReads`).
- **The FIFO read buffer** (`Fifo`). A window over an array, compacted now and then,
  and the loops that consume it; no byte is lost, repeated or reordered over any run
  (`RunConserves`, and `Stream.Replay` on the object).
- **The circular doubly linked list** (`Ring`), on the heap: every operation keeps the
  ring and acts on the sequence of elements (`Replay`), and a traversal may delete as
  it goes (`ForeachDeleting`, `ForeachBackDeleting`).
- **Sign-magnitude time** (`Time`). `V` below is the number of nanoseconds a canonical
  value stands for. Where the C code is exact is stated as a condition on its
  arguments, and proved in both directions (`AddedIsExact`, `ElapsedIsExact`,
  `FixedIsExact`, `MsIsNearest`, `MsRoundTrip`).

Code that updates things step by step is a method on arrays or objects, tied by its
postcondition to a function of its inputs; the lemmas say what these functions do, for
all inputs and in other terms (those named `...Is` say it in full).
Callbacks and read(2) are parameters: a callback is any function of what it is shown,
read(2) says which bytes arrived. The sizes of the logger's buffers are parameters too
(the program uses 256). A `long` and a `time_t` are 64 bits, an `int` and `unsigned` 32;
arithmetic on `long` is checked never to leave its range.

Where the code does not do what one would expect of it, the code is followed:

- an empty string put without its terminator is refused by the validator of its own
  data type, which asks for one byte (`ReadBack`);
- the ellipsis of a dump is not distinguishable from three dots in the data: two dumps
  read the same exactly when the byte counts and the bytes shown, dots included, are the
  same (`SameTextIff`). The count in the text differs from the number of bytes shown
  exactly when bytes were dropped, but not three of them, and then the bytes shown
  without the last three are a prefix of the data (`CutShowsIff`). A cut dump reads like an uncut one
  exactly when it lost three bytes in whose place the other input has three dots
  (`AmbiguousIff`), and there is such an input exactly when the encoding of the data
  without its last three bytes ends at size-17 and the next byte takes four characters
  (`HasTwinIff`; an instance is `EllipsisIsAmbiguous`);
- data is cut although all of it would fit when its last byte begins at size-14 or
  behind: the block loop reckons with four characters a byte (`WholeIff`,
  `TruncationIsTight`), and a cut dump can even be the longer one (`CutWithRoomToSpare`);
- the capacity check covers the write only for payloads up to 65532 bytes and messages
  padded no more than the payload (`CheckCoversTheWrite`, `CheckCoversUnderEveryLimit`;
  an instance to the contrary is `CheckPassesTooMuch`), and under a limit beyond sixteen
  bits an accepted put can take the message to a length whose alignment wraps
  (`WhenPutOutgrowsTheFormat`);
- fixing, adding, comparing and subtracting times, and converting them to milliseconds,
  are exact under conditions on the arguments and nowhere else (`FixedIsExact`,
  `AddedIsExact`, `CmpIsSign`, `ElapsedIsExact`, `TimeLeftIsExact`, `MsIsNearest`).
  Instances: below zero a carry goes the wrong way (`CarryBelowZeroIsLost`,
  `FixLosesTheSign`), and since comparison casts seconds to `int`, 2^31 seconds have not
  elapsed at all (`ElapsedFails`);
- milliseconds below zero do not survive the way to a time value and back
  (`MsRoundTrip`);
- a buffer of less than ten bytes is never compacted (`SkipDropsFromTheFront`);
- when a prefixer reports more than its buffer holds, the prefix is dropped whole, not
  cut, and the record is written without it (`LogPrefix`).

## Model

| member | source | states |
|---|---|---|
| HostOrder.LoadStore | src/netlink/netlink_attr.c:194-212 | an integer stored through a pointer is loaded back, in either byte order and any width |
| HostOrder.StoreLoad | src/netlink/netlink_attr.c:194-212 | every byte string is the store of the integer it loads as |
| HostOrder.LoadOrder | src/netlink/netlink_attr.c:194-212 | the order spelled out for every width: the low byte is the first, or the last |
| NetlinkMsg.NlAlignRoundsUp | include/sancus/netlink.h:155 | alignment is the least multiple of four not below its argument exactly up to 65532; the mask spoils it above |
| NetlinkMsg.NlAlignIsTheOne | include/sancus/netlink.h:155 | for every length, alignment is the one multiple of four below 65536 that is, in sixteen bits, less than four ahead |
| NetlinkMsg.NlAlignAdd | include/sancus/netlink.h:155 | aligning a header plus a payload is the header plus the aligned payload |
| NetlinkMsg.MsgLenBytes | src/netlink/netlink_msg.c:75-78 | the length is the first four bytes in machine order |
| NetlinkMsg.TailIsRoundedUp | src/netlink/netlink_msg.c:75-78 | the tail of any message, aligned or not, is its length rounded up to a multiple of four, in sixteen bits beyond 65532 |
| NetlinkMsg.OffsetIsRoundedUp | src/netlink/netlink_msg.c:70-73 | attributes start behind the header and the extra header rounded up, likewise |
| NetlinkMsg.PutHeader | src/netlink/netlink_msg.c:80-91 | the first sixteen bytes are zeroed and the length set, nothing else changes |
| NetlinkMsg.HeaderPutBytes | src/netlink/netlink_msg.c:80-91 | byte by byte what that leaves in the buffer, and the length 16 |
| NetlinkMsg.PutExtraHeader | src/netlink/netlink_msg.c:93-104 | zeroes the aligned extra header behind the message, lengthens it, returns where it starts |
| NetlinkMsg.ExtraHeaderPutBytes | src/netlink/netlink_msg.c:93-104 | byte by byte what that leaves, and the length grown by the aligned size |
| NetlinkMsg.StartedMessage | src/netlink/netlink_msg.c:70-104 | header and extra header leave an aligned message of zeros that ends where parsing with that offset starts; all bytes behind are untouched |
| NetlinkAttr.FieldBytes | src/netlink/netlink_attr.c:49-67 | length and type of an attribute are its first four bytes in machine order, the type without two bits, and its payload is as long as its length without the header, in sixteen bits |
| NetlinkAttr.AttrOkIff | src/netlink/netlink_attr.c:69-74 | an attribute is accepted exactly if header and length lie before the tail and the length covers the header |
| NetlinkAttr.AttrInMessageIsOk | include/sancus/netlink.h:313-316 | an attribute within the length of its message is never cut off by the tail, aligned or not |
| NetlinkAttr.NextInWalk | src/netlink/netlink_attr.c:69-79 | one step of the loop goes forward by at least four bytes, stays aligned, goes to within four bytes behind the attribute and does not pass the tail |
| NetlinkAttr.LoopMakesTheOnlyWalk | include/sancus/netlink.h:313-316 | over arbitrary bytes the offsets visited are the one sequence that starts at the start, is aligned, inside, gap-free and complete |
| NetlinkAttr.Parse | src/netlink/netlink_attr.c:182-192 | shows the callback a prefix of that walk, all of it unless the callback stops it; returns the callback's last answer, or 1 for no attribute |
| NetlinkAttr.PutNocheck | src/netlink/netlink_attr.c:228-240 | header, payload and length are written and nothing else |
| NetlinkAttr.AttrBytesRead | src/netlink/netlink_attr.c:232-237 | an attribute written has the length with its header, in sixteen bits, the whole type, flag bits included, and the payload |
| NetlinkAttr.PutCheck | src/netlink/netlink_attr.c:252-261 | for any limit and any payload a 16-bit length can state, accepted exactly when the check passes, and then the unchecked put; a rejected put writes nothing. Asks only that a put that passes does not leave the buffer |
| NetlinkAttr.PutIs | src/netlink/netlink_attr.c:228-261 | on any message: what passes the check is written at the tail and lengthens the message by its aligned size, what does not changes nothing, and no other byte changes |
| NetlinkAttr.PutKeepsTheMessage | src/netlink/netlink_attr.c:228-240 | no put touches a byte of the message behind its length field, aligned or not |
| NetlinkAttr.FitsIff | src/netlink/netlink_attr.c:255-257 | the check passes exactly when the message with the padded attribute stays within the limit |
| NetlinkAttr.FitsWithWrap | src/netlink/netlink_attr.c:255-257 | for any 32-bit length of the message, what the check compares, with the sum wrapping at 2^32 |
| NetlinkAttr.CheckChargesWhatPutAdds | src/netlink/netlink_attr.c:239-256 | the length the check reckons with is the length the put adds, except for payloads of 65529 to 65532 bytes |
| NetlinkAttr.CheckCoversTheWrite | src/netlink/netlink_attr.c:255-257 | under a given limit, an aligned message passes the check without room for the bytes exactly when the payload is beyond 65532 bytes and there is room for the header but not for it |
| NetlinkAttr.CheckPassesTooMuch | src/netlink/netlink_attr.c:255-257 | such a case: 65533 bytes pass with room for four |
| NetlinkAttr.CheckCoversUnderEveryLimit | src/netlink/netlink_attr.c:255-257 | aligned or not, passing the check means the bytes fit under every limit exactly for payloads up to 65532 bytes that are padded by at least what the message lacks |
| NetlinkAttr.WhenPutOutgrowsTheFormat | src/netlink/netlink_attr.c:228-261 | an accepted put leaves a message that can take another exactly when its length stays up to 65532; else the next would be put 65536 bytes too low |
| NetlinkAttr.PutEffect | src/netlink/netlink_attr.c:228-261 | an accepted put appears at the old end, grows the length by its padded size and changes no other byte, padding included; the message stays well formed |
| NetlinkRoundTrip.ReadStored | src/netlink/netlink_attr.c:49-67 | type, with and without flag bits, length and payload are read back where an attribute is stored |
| NetlinkRoundTrip.WalkLayout | src/netlink/netlink_attr.c:182-192 | the walk over attributes laid end to end visits each of them once, in order |
| NetlinkRoundTrip.RunStaysInside | src/netlink/netlink_attr.c:252-261 | over any run of puts the length stays a multiple of four within the limit, only grows, and neither earlier bytes nor bytes behind the limit change |
| NetlinkRoundTrip.RunLayout | src/netlink/netlink_attr.c:228-261 | a run of puts lays out exactly the accepted ones, which lengths alone decide |
| NetlinkRoundTrip.BuildThenWalk | src/netlink/netlink_attr.c:182-261 | whatever the buffer held, the loop over a built message delivers exactly the accepted puts, in order, with their payload and type |
| NetlinkRoundTrip.BuildAndParse | src/netlink/netlink_attr.c:182-261 | header, extra header, puts and parsing run on one array: the callback is shown the accepted puts in order, all of them if it always goes on, and its last answer is returned |
| NetlinkTyped.PayloadIs | src/netlink/netlink_attr.c:269-297 | a typed put hands on 1, 2, 4 or 8 bytes that load as the integer, the characters alone, or the characters and one NUL |
| NetlinkTyped.PutU8 | src/netlink/netlink_attr.c:269-272 | is the checked put of the one byte |
| NetlinkTyped.PutU16 | src/netlink/netlink_attr.c:274-277 | is the checked put of the two bytes in machine order |
| NetlinkTyped.PutU32 | src/netlink/netlink_attr.c:279-282 | is the checked put of the four bytes in machine order |
| NetlinkTyped.PutU64 | src/netlink/netlink_attr.c:284-287 | is the checked put of the eight bytes in machine order |
| NetlinkTyped.PutString | src/netlink/netlink_attr.c:289-292 | is the checked put of the characters without the terminator, for strings whose length the 16-bit cast admits |
| NetlinkTyped.PutNulString | src/netlink/netlink_attr.c:294-297 | is the checked put of the characters and the terminator, for strings whose length the 16-bit cast admits |
| NetlinkTyped.ValidatedIsUsable | src/netlink/netlink_attr.c:91-169 | validation succeeds exactly for payloads long enough for the data type, NUL strings ending in NUL, empty flags, and nested attributes empty or with a header |
| NetlinkTyped.ExpectedIsUsable | src/netlink/netlink_attr.c:101-180 | the same for validation against an expected length: no shorter payload passes |
| NetlinkTyped.RefusalsSay | src/netlink/netlink_attr.c:101-180 | a refusal is EINVAL exactly for an unknown data type or a long enough NUL string without its NUL, and else ERANGE |
| NetlinkTyped.ReadBack | src/netlink/netlink_attr.c:158-217 | a stored typed value has its type and length, its getter returns it, and both validators accept it under its data type unless it is an empty unterminated string |
| NetlinkTyped.TypeReadBack | src/netlink/netlink_attr.c:81-88 | the type of a stored value passes for valid exactly up to the maximum, its flag bits aside |
| NetlinkTyped.TypedRoundTrip | src/netlink/netlink_attr.c:182-297 | after any run of typed puts on a fresh message the loop visits exactly the accepted ones, in order, and each reads back as it was put |
| Escape.TableIsRanges | src/sancus/fmt_cstr.c:37-63 | the table-driven code of a byte is the range-driven one, but for zero |
| Escape.DumpByteIs | src/sancus/logger.c:377-410 | each byte's code spelled out: itself, behind a backslash, C's letter, or two hexadecimal digits |
| Escape.HexValIs | src/sancus/logger.c:395-405 | the sixteen lower-case digits are all that is read as a digit |
| Escape.DecodeByteInverts | src/sancus/logger.c:373-410 | the code of a byte is recognised whatever text follows it |
| Escape.DecodeEnc | src/sancus/logger.c:365-417 | decoding undoes both encoders on every byte string |
| Escape.EncInjective | src/sancus/fmt_cstr.c:48-91 | two byte strings with the same encoding, under either code, are the same |
| Escape.EncPrintable | src/sancus/logger.c:377-410 | an encoding is printable ASCII without NUL |
| Escape.EncodersAgree | src/sancus/fmt_cstr.c:37-63 | the two encoders write the same text exactly for data without a zero byte |
| Escape.LongestFitIsLongest | src/sancus/fmt_cstr.c:55-70 | a prefix fits the room exactly when it is no longer than the one the encoder stops at |
| FmtCstr.FormatAsciiCstr | src/sancus/fmt_cstr.c:48-91 | writes the encoding of the longest prefix that leaves room for the terminator, terminates it, returns its length and touches nothing behind |
| FmtCstr.FormattedTextDecodes | src/sancus/fmt_cstr.c:55-90 | the text written has no earlier NUL, decodes to the prefix, and no longer prefix would fit |
| TextBuffer.SuffixLenIsLongest | src/sancus/buffer.c:28-47 | what is stripped is the longest suffix made of the characters |
| TextBuffer.ArgTextIs | src/sancus/buffer.c:115-121 | a length says how many characters are meant, a negative one those before the first NUL |
| TextBuffer.FormatIs | src/sancus/buffer.c:147-160 | a formatted text is kept whole, or cut to leave a terminator its place, or left out, with the answer for each, a failing formatter and no room included |
| TextBuffer.Buffer.Append | src/sancus/buffer.c:109-139 | appends all, or the maximal prefix when truncating, or nothing with -ENOBUFS; -EINVAL for no text with a length |
| TextBuffer.Buffer.AppendFormatted | src/sancus/buffer.c:141-165 | the same for formatted text, which needs one more character than it keeps; nothing is appended when the formatter fails, and its error is returned |
| TextBuffer.Buffer.Sparse | include/sancus/buffer.h:71-78 | claims tail characters as they are, or nothing with -EINVAL |
| TextBuffer.Buffer.StripChar | src/sancus/buffer.c:12-53 | removes exactly the longest suffix of such characters, or one of them |
| TextBuffer.Buffer.Strip | src/sancus/buffer.c:55-81 | removes a suffix on an exact match and otherwise nothing |
| TextBuffer.Buffer.Truncate | src/sancus/buffer.c:83-93 | keeps the first n characters, terminated |
| TextBuffer.Buffer.StripN | src/sancus/buffer.c:95-104 | drops the last n characters, or all and the base with them, terminated |
| TextBuffer.EditAll | src/sancus/buffer.c:12-165 | any run of plain and formatted appends, claims, strips of many or one character, of a suffix, of a length, and truncations refines the same run on a string of bounded length, from any base |
| TextBuffer.EditedIs | src/sancus/buffer.c:12-165 | what each of those edits leaves of the text, and that the base moves only when nothing is left |
| TextBuffer.EditedAllSnoc | src/sancus/buffer.c:12-165 | a run of edits goes on where it stopped |
| TextBuffer.Buffer.Trimmed | src/sancus/logger.c:52-79 | the length without the longest suffix of blanks |
| TextBuffer.TrimTailIs | src/sancus/logger.c:52-79 | what is left does not end in a blank, and only blanks were taken off |
| Logger.ReadDigitsInverts | src/sancus/logger.c:471-475 | a printed number consists of decimal digits, none too many, and reads back |
| Logger.LogPrefix | src/sancus/logger.c:280-290 | what the prefixer wrote is claimed if it fits and dropped whole if not; its answer is returned either way |
| Logger.PrefixIs | src/sancus/logger.c:280-290 | the prefix is what the prefixer says if the buffer holds it, and else nothing |
| Logger.LogFmt | src/sancus/logger.c:292-324 | the buffer ends up with heading and message, each part as far as it fits and separators stripped at the end; the formatter's answer is returned |
| Logger.HeadingIs | src/sancus/logger.c:297-312 | for every buffer: nothing without a function, else function, line and separator, each exactly if it fits behind those before |
| Logger.MessageIs | src/sancus/logger.c:292-324 | for every call: heading and text, cut to leave a terminator its place, without the separators at the end; the answer is how much of the text that is, or the failure of the formatter, or -ENOBUFS if the heading fills the buffer |
| Logger.MessageIsCut | src/sancus/logger.c:292-324 | the same in full where the heading fits: the message is the first size-1 characters of heading and text, stripped |
| Logger.MessageIsTrimmed | src/sancus/logger.c:321 | a message never ends in a separator, so trimming it on writing takes nothing |
| Logger.MessageIsWhole | src/sancus/logger.c:302-321 | with room for everything and no separator at its end, the record says function:line: message in full |
| Logger.LogWrite | src/sancus/logger.c:81-107 | the backend is handed prefix, message and data without their trailing blanks, unless nothing is left of any |
| Logger.VPrintf | src/sancus/logger.c:326-348 | the first failure of prefix or message is returned and nothing written, else the record is written and the backend's answer returned |
| Logger.ComposeIs | src/sancus/logger.c:326-348 | a failing prefix is answered for first, then the message, whose answer is spelled out |
| Logger.DigitsUpTo5 | src/sancus/logger.c:436 | five digits do exactly up to 99999 |
| Dump.DumpEnc | src/sancus/logger.c:365-417 | appends the encoding and returns its length, the same number without a buffer; when it does not fit, appends the longest prefix of whole encoded bytes and returns -ENOBUFS |
| Dump.EncodeBlocks | src/sancus/logger.c:455-469 | the block loop terminates, always leaves room for the suffix, and stops short only when a worst-case byte might not fit |
| Dump.BackOut | src/sancus/logger.c:480-485 | backs out whole encoded bytes down to the longest prefix that leaves room for ellipsis and suffix |
| Dump.WholeIff | src/sancus/logger.c:455-469 | data is shown whole exactly when it is empty or the encoding of all but its last byte is shorter than size-14 |
| Dump.KeptIff | src/sancus/logger.c:455-491 | a cut keeps k bytes exactly when the data is not whole, k bytes take at most size-14 characters and k+1 take more |
| Dump.TruncationIsTight | src/sancus/logger.c:455-491 | an encoding up to size-14 is never cut, one longer than size-11 always, and in between exactly when the last byte begins at size-14 or behind; a cut uses at least size-17 of the size-14 characters |
| Dump.CutWithRoomToSpare | src/sancus/logger.c:455-491 | three dots in a buffer of 16 are cut, and rendered to more characters than they would take whole |
| Dump.SuffixFits | src/sancus/logger.c:471-475 | up to 99999 bytes the suffix fits |
| Dump.RenderDump | src/sancus/logger.c:451-491 | the buffer ends up with the rendered text exactly when that leaves a character for the terminator, and fails with -ENOBUFS otherwise; nothing before the suffix ever fails |
| Dump.VDumpf | src/sancus/logger.c:420-492 | -EINVAL for no data with a length, the first failure of prefix or message, -ENOBUFS if the suffix does not fit; else the backend gets, once, the record with the rendered text untrimmed, and its answer is returned |
| Dump.ClosingQuoteIsFound | src/sancus/logger.c:377-398 | reading encoded bytes from the opening quote stops at the closing one |
| Dump.RenderedReads | src/sancus/logger.c:451-491 | a reader of the text gets the shown prefix, three dots behind it exactly when it was cut, and the full byte count |
| Dump.SameTextIff | src/sancus/logger.c:451-491 | two inputs render to the same text exactly when they are equally long and show the same bytes, dots included |
| Dump.LosesThreeIff | src/sancus/logger.c:455-491 | three bytes are dropped exactly when the encoding without three bytes is at most size-14 long and without two longer |
| Dump.CutShowsIff | src/sancus/logger.c:451-491 | the text gives a cut away exactly unless three bytes are dropped, told from the data as above; what is not cut is shown, and of what is cut the bytes shown but for the last three are a prefix |
| Dump.AmbiguousIff | src/sancus/logger.c:487-491 | a whole and a cut input render to the same text exactly when the cut one loses three bytes and the other has three dots in their place, told from the data as above |
| Dump.HasTwinIff | src/sancus/logger.c:455-491 | for a cut input there is a whole one with the same text exactly when the encoding without the last three bytes is size-17 long and without two size-13 |
| Dump.EllipsisIsAmbiguous | src/sancus/logger.c:487-491 | such a pair: three zeros and three dots, in a buffer of 17 |
| HexDump.VHexdumpf | src/sancus/logger.c:510-583 | -EINVAL for no data with a length, the first failure of prefix or message; else each line is written as a record behind prefix and message, in order, all of them unless the backend fails, with the last answer returned; without data the message alone |
| HexDump.MakeLine | src/sancus/logger.c:546-572 | one line is label, columns, padding and ASCII column, each append that does not fit left out; the offset wraps at 2^32 |
| HexDump.LinePieces | src/sancus/logger.c:549-572 | the appends a line is made of, in order, and which of them need room for a terminator |
| HexDump.LossySnoc | src/sancus/logger.c:549-572 | an append is kept whole exactly if it fits behind what was kept, and else nothing of it is |
| HexDump.LossyLineAt | src/sancus/logger.c:546-579 | in any buffer, line k is that of the bytes from k*width on, and there are as many as in one that is large enough |
| HexDump.LinesAreNotBlank | src/sancus/logger.c:91-104 | in a buffer of ten characters or more trimming leaves something of every line, so the backend is asked every time |
| HexDump.DumpSurvives | src/sancus/logger.c:546-579 | the lines come out as meant exactly when the longest, 12+3*width+chunk (3+4*len without width), fits the buffer |
| HexDump.LineReads | src/sancus/logger.c:549-572 | a line as meant has that length, gives its bytes back and is labelled with eight hexadecimal digits that are its position modulo 2^32 |
| HexDump.LineShowsAscii | src/sancus/logger.c:563-572 | between the bars stand the printable bytes, dots for the others |
| HexDump.LineIsBlankElsewhere | src/sancus/logger.c:551-563 | every other place of a line, up to the bars, is blank |
| HexDump.DumpReads | src/sancus/logger.c:546-579 | the hex columns of all lines together are the data |
| HexDump.DumpLineCount | src/sancus/logger.c:546-579 | there are length/width lines, rounded up, or a single one without a width |
| HexDump.DumpLineAt | src/sancus/logger.c:546-579 | line k shows, and is labelled, the bytes from k*width on |
| Fifo.ReadBuffer.constructor | src/sancus/buffer_legacy.c:39-47 | a bound buffer is empty with its window at the front |
| Fifo.ReadBuffer.Read | src/sancus/buffer_legacy.c:49-57 | the bytes read are appended to the window; nothing happens on failure |
| Fifo.ReadBuffer.Rebase | src/sancus/buffer_legacy.c:59-69 | moves the window to the front with its contents, overlapping or not |
| Fifo.RebaseIs | src/sancus/buffer_legacy.c:59-69 | the window is at the front afterwards, its contents the same |
| Fifo.ReadBuffer.Skip | src/sancus/buffer_legacy.c:71-88 | drops from the front, compacts or not, and returns the tail space |
| Fifo.SkipDropsFromTheFront | src/sancus/buffer_legacy.c:71-88 | compaction does not show in the contents; exactly when a skip leaves no tail space |
| Fifo.SkipBase | src/sancus/buffer_legacy.c:71-88 | the window is at the front afterwards exactly if it is empty or less than a tenth is free behind it, else where the skip left it |
| Fifo.SkipMakesRoom | src/sancus/buffer_legacy.c:83-87 | from ten bytes on, dropping anything leaves tail space |
| Fifo.Stream.Receive | src/sancus/buffer_legacy.c:49-57 | what read(2) delivers is received behind the contents; a failure receives nothing |
| Fifo.Stream.Consume | src/sancus/buffer_legacy.c:71-88 | what a skip drops from the front is consumed |
| Fifo.Stream.Process | src/sancus/stream.c:101-114 | shows the contents once, drops what was taken, returns the answer, 0 when empty |
| Fifo.ProcessedIs | src/sancus/stream.c:101-114 | as many bytes as the callback takes, and are there, are consumed from the front and the rest stays; where the window ends up |
| Fifo.Stream.Drain | src/sancus/stream.c:67-77 | the loop terminates, and what was received is what was consumed followed by what is left |
| Fifo.DrainConserves | src/sancus/stream.c:67-77 | draining takes a prefix of the contents, all of it unless the callback ends it |
| Fifo.DrainIsOne | src/sancus/stream.c:67-77 | the loop makes a run as described without it: each window shown in turn, each the one before without what was taken, to the first reason to end |
| Fifo.DrainIsTheOnlyOne | src/sancus/stream.c:67-77 | there is no other such run, so window and outcome are what the description says |
| Fifo.RunConserves | src/sancus/buffer_legacy.c:49-88 | over every interleaving of reads, compaction, skips, processing and draining, first in is first out and the window stays in the array |
| Fifo.Stream.Replay | src/sancus/buffer_legacy.c:49-88 | any interleaving of those events on a stream refines the same run on a window, its history being the bytes that arrived and were taken out |
| Fifo.HappenIs | src/sancus/buffer_legacy.c:49-88 | what each event does to the window and takes out |
| Fifo.RunSnoc | src/sancus/buffer_legacy.c:49-88 | a run goes on where it stopped |
| Ring.Node.Init | include/sancus/list.h:45-48 | an initialised node is a ring of its own |
| Ring.RingIsUnique | include/sancus/list.h:35-38 | the links determine the sequence of nodes through a head |
| Ring.Inject | include/sancus/list.h:53-60 | inserts between two neighbours and keeps the ring |
| Ring.Insert | include/sancus/list.h:69 | prepends to the elements |
| Ring.Append | include/sancus/list.h:74 | appends to the elements |
| Ring.InsertBefore | include/sancus/list.h:65 | inserts in front of an element, or at the end in front of the head |
| Ring.Unlink | include/sancus/list.h:79-84 | closes the gap between the neighbours of a node and keeps the ring |
| Ring.Del | include/sancus/list.h:85 | removes that element; the node keeps its own links |
| Ring.Size | include/sancus/list.h:141-149 | the number of elements |
| Ring.Get | include/sancus/list.h:122-136 | element n, element size+n for negative n, or null out of range |
| Ring.ForeachDeleting | include/sancus/list.h:107 | deleting the current element as one goes, every element is visited once, in order, and the list is left with those kept |
| Ring.ForeachBackDeleting | include/sancus/list.h:117 | the same from the last to the first |
| Ring.KeptAreThoseToKeep | include/sancus/list.h:107-117 | the elements left are exactly those to be kept |
| Ring.Replay | include/sancus/list.h:45-85 | any run of insertions and deletions refines the same run on a sequence |
| Ring.PerformedIs | include/sancus/list.h:45-85 | each operation puts its item at an end, directly before another, or takes it out |
| Ring.PerformedAllSnoc | include/sancus/list.h:45-85 | a run of operations goes on where it stopped |
| Time.CanonicalIsUnique | include/sancus/time.h:165-168 | canonical values and numbers of nanoseconds correspond one to one |
| Time.FixSignIsSign | src/sancus/time.c:20-25 | on canonical values the answer is the sign of V, on others it says whether a part is negative, or both are zero |
| Time.FixedIsExact | src/sancus/time.c:4-26 | for every value, exactly when fixing keeps V and makes it canonical |
| Time.FixedIs | src/sancus/time.c:4-26 | what fixing does to any value, exact or not: seconds and nanoseconds together stay, and the nanoseconds come within a second |
| Time.FixLosesTheSign | src/sancus/time.c:4-26 | -1 s and 10^9 ns, which is V = -2*10^9, is fixed to zero |
| Time.AddedIsExact | src/sancus/time.c:28-55 | exactly when the sum of two canonical values is canonical and exact |
| Time.RawSumIs | src/sancus/time.c:28-55 | what adding does to any values, exact or not: part by part, or by difference with as many seconds borrowed as needed |
| Time.CarryError | src/sancus/time.c:28-55 | below zero a carry makes the sum too large by two seconds |
| Time.CarryBelowZeroIsLost | src/sancus/time.c:28-55 | -1.6 s and -1.6 s make -1.2 s |
| Time.NegIsExact | include/sancus/time.h:107-115 | negation negates V, keeps values canonical and undoes itself; of any value it negates the seconds |
| Time.SubtractedIsExact | src/sancus/time.c:62-66 | exactly when the difference of two canonical values is canonical and exact |
| Time.CmpIsSign | include/sancus/time.h:117-127 | comparison is that of V exactly as far as the seconds survive the cast to int |
| Time.CmpIs | include/sancus/time.h:117-127 | the answer is the difference of seconds as an int, or of V within a second |
| Time.ElapsedIsExact | include/sancus/time.h:213-220 | for any two canonical instants, elapsed is max(0, now-since) exactly when: going back, the difference of seconds is not positive after the cast to int; going forward, it is zero or still positive, and now is not below zero seconds or does not differ in nanoseconds; and what comes out otherwise |
| Time.ElapsedFails | include/sancus/time.h:213-220 | 2^31 seconds forward count as nothing; 2^31+1 back count as a negative time |
| Time.TimeLeftIsExact | include/sancus/time.h:224-231 | the same for the time left, with until for now and now for since |
| Time.ElapsedGivesBack | include/sancus/time.h:213-220 | adding the elapsed time to a since not below zero and not after now gives now back, field for field, exactly when the seconds are the same or their difference is positive after the cast to int |
| Time.MsValue | include/sancus/time.h:70-83 | what conversion to milliseconds returns, without overflow, ends included |
| Time.MsIsMonotone | include/sancus/time.h:70-83 | later is never fewer milliseconds, ends included |
| Time.MsIsNearest | include/sancus/time.h:70-83 | between the ends, exactly when the result is within half a millisecond |
| Time.MsRoundTrip | include/sancus/time.h:179-184 | wherever no step overflows, milliseconds survive the way there and back exactly when not negative; which value negative ones become |
| Time.TimeVar.Fix | src/sancus/time.c:4-26 | fixes the value in place and returns its sign code, wherever no step of it overflows |
| Time.CanonicalAddFits | src/sancus/time.c:28-55 | on canonical values no step of an addition overflows exactly when the sum of the seconds and the seconds of the result fit |
| Time.TimeVar.Add | src/sancus/time.c:28-60 | adds in place, even a value to itself, and returns the sign code, wherever no step overflows |
| Time.TimeVar.Sub | src/sancus/time.c:62-66 | adds the negative in place and returns the sign code, wherever no step overflows |
| Time.TimeVar.AddMs | include/sancus/time.h:190-194 | adds milliseconds in place and returns the sign code, wherever no step overflows |

## Left out

- Sockets, file descriptors, serial ports, clocks, mutexes, the stderr backend of the logger, and the event dispatch of streams and receivers: calls into the system. Of the stream callbacks only the consuming loop and `sancus_stream_process` are modelled; whether the watcher is still active is an answer of the callback.
- `sancus_nl_attr_put`: it hands on the address of its pointer parameter, not the data.
- `sancus_nl_msg_next` and the multipart loop of the receiver: the pointer advances in header units while the remaining length is counted in bytes.
- `sancus_list_swap`: exchanges link fields without relinking the neighbours.
- `sancus_writev`: the partially written vector is advanced by the whole count.
- NetlinkAttr.PutCheck: a put that passes the check and would leave the buffer has no meaning here, since C gives it none; when that can be is what CheckCoversTheWrite and CheckCoversUnderEveryLimit say.
- NetlinkRoundTrip.BuildThenWalk: runs with limits above 65535 or payloads above 65532 bytes are not covered; the format counts in sixteen bits, and WhenPutOutgrowsTheFormat says what becomes of a message beyond it.
- Dump.VDumpf: buffers of less than 14 characters are not covered; the program's has 256.
- Logger.LogPrefix: which logger supplies the prefix, itself or a parent, is not modelled; what the prefixer says is a parameter, as is what vsnprintf makes of a format (`FormatResult`).
- Time.TimeVar.Add: sums that overflow a long have no meaning in C and are left out, no others (`AddFits`); the same holds of Fix, Sub and AddMs.
- Time.CmpIsSign: a difference of seconds that overflows a long has no meaning in C and is not covered, here and in ElapsedIsExact and TimeLeftIsExact; the lemmas reckon with the mathematical difference.
- NetlinkTyped.PutString: strings longer than 65535 bytes, which the cast to 16 bits refuses by assertion; likewise PutNulString, terminator included.
- Conversions between time values and floating-point numbers, and `sancus_time_is_gt_zero`.
- Null buffers and null list heads: methods belong to an object.
- A callback that writes into the buffer it is shown.
- Logger masks and parent lookups; bit, type, allocation and clock helpers: one branch each.
