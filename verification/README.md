# Verified models of the IoT gateway's self-contained cores

This Dafny project models five parts of the gateway software and proves what they are for:

* the JSON library: its recursive-descent parser building linked nodes, both of its printers, the
  minifier, the child lists and the deep copy;
* the JN51xx host programmer: framed requests over a fragmenting serial line, flash programming and
  verification, the RAM loader, and the one-time programmable index sector with its voted settings;
* the NDEF tag codec with its page-skipping writer;
* the shared log ring and its followers;
* the history of plug meters.

Code that works by changing things in place is modelled the same way: nodes with next, prev and child
pointers, a print buffer that grows, arrays that are overwritten, a chip, a tag and a log with fields
that methods update. Each method is proved against a function of its inputs, and the properties are
proved about these functions. The hardware and the operating system are scripted: a list of events says
how much each read brings, whether a write is short, busy or fails, and whether a request is carried
out, refused, answered wrongly or answered at all; the theorems hold for all scripts.

How the files fit together:

* `Text`, `CStrings`, `Utf8`, `PowerOfTwo`, `Scripts`: C strings, their copying loops, UTF-8, sizes, events.
* `JsonTree`, `JsonTexts`, `JsonLayout`: trees and their reference text. `JsonParse`, `JsonStrings`, `JsonUnicode`: what the grammar
  reads. `JsonRoundTrip`: reading undoes printing. `JsonMinify`: the minifier,
  `JsonMinifyMeaning`: it keeps what a document means. `JsonGrammar`: what RFC 8259 derives is read as
  what it stands for, and what was read can be printed and read again.
* `JsonNodes`, `JsonLists`, `JsonListRuns`, `JsonShapes`: nodes, pointer surgery, trees on the heap.
  `JsonParser`, `JsonBuilder`: the parser. `JsonQuote`, `JsonPrinter`, `JsonPrintBuffer`: the printers.
  `JsonDuplicate`: the copy. `JsonLibrary`: the parts taken together.
* `Frames`, `Uart`, `BootLoader`, `Commands`: the link. `Session`: its two ends
  together. `Chip`, `Programmer`, `RamLoader`: flash and RAM.
  `IndexSector`, `DeviceConfig`, `OneTime`: one-time programmable words.
* `Ndef`, `NdefReader`: the tag. `LogRing`: the log. `PlugHistory`: the meters.

Where the code does not do what its documentation suggests, the code is modelled as it is and a lemma
says exactly when it does: skipping tag pages (`NdefReader.DifferentialIsFull`, `NdefReader.SkippingExact`),
following the log (`LogRing.FollowExact`, `LogRing.DeliveredInTime`), the order of readings
(`PlugHistory.OrderExact`), the history of a meter that only counts up (`PlugHistory.NeverRisesExact`),
the index the buffered printer returns (`JsonPrintBuffer.PrintValue`), and the length a write request
admits (`Commands.WriteLimit`).

`dafny verify dfyconfig.toml` checks the whole project.

## Model

| member | source | states |
|---|---|---|
| `JsonLibrary.PrintAndParse` | src/IotCommon/cJSON/cJSON.c:323-434 | printing any printable tree on the heap, in either format, and parsing the text gives a new, well-linked tree of new nodes that holds the same value, with or without the require-end option |
| `JsonLibrary.ParseAndPrint` | src/IotCommon/cJSON/cJSON.c:323-353 | parsing any text and printing the tree gives a C string that parses to the same value, if the numbers are ints |
| `JsonLibrary.PrintBothWays` | src/IotCommon/cJSON/cJSON.c:342-353 | the growing-buffer printer and the allocating printer both leave the reference text of the tree, terminated and NUL-free, for every tree, format and prebuffer of at least one byte, and the former returns the index it starts at |
| `JsonLibrary.PrintAndMinify` | src/IotCommon/cJSON/cJSON.c:735-750 | minifying formatted output in place leaves exactly the unformatted text |
| `JsonLibrary.CopyAndPrint` | src/IotCommon/cJSON/cJSON.c:708-733 | a recursive duplicate and its original both print the reference text of the tree |
| `JsonRoundTrip.RoundTrip` | src/IotCommon/cJSON/cJSON.c:357-658 | for every printable tree, depth and format, reading its text in front of any text that does not go on with a number consumes exactly the printed text and yields the tree |
| `JsonRoundTrip.ParseUndoesPrint` | src/IotCommon/cJSON/cJSON.c:323-337 | the exported parser reads printed text whole, and nothing is left behind it |
| `JsonGrammar.GrammarAccepted` | src/IotCommon/cJSON/cJSON.c:323-337 | every text that RFC 8259 (sections 2 to 7) derives, with any white space between tokens and around it, is accepted to its end as the value it stands for; where RFC 8259 leaves the meaning open, \u0000, surrogates that do not pair up and the escape behind a high one that is not its low half stand for nothing |
| `JsonGrammar.DocumentRead` | src/IotCommon/cJSON/cJSON.c:357-547 | the same for a value in front of anything that does not go on with a number, which is left |
| `JsonGrammar.WhiteSpaceSkipped` | src/IotCommon/cJSON/cJSON.c:320 | the white space of RFC 8259 is skipped, and no visible character is |
| `JsonGrammar.ValueRejected` | src/IotCommon/cJSON/cJSON.c:357-369 | a text that does not begin like a value is refused |
| `JsonGrammar.ElementRejected` | src/IotCommon/cJSON/cJSON.c:406-431 | behind an element anything but white space, a comma and the closing bracket is refused |
| `JsonGrammar.MemberRejected` | src/IotCommon/cJSON/cJSON.c:514-547 | behind a member anything but white space, a comma and the closing brace is refused |
| `JsonGrammar.NameRejected` | src/IotCommon/cJSON/cJSON.c:514-547 | a member whose name is not a string is refused |
| `JsonGrammar.ColonMissing` | src/IotCommon/cJSON/cJSON.c:525-529 | a name without a colon behind it is refused |
| `JsonGrammar.TrailingRejected` | src/IotCommon/cJSON/cJSON.c:331-335 | with the end required, anything but white space behind a document is refused; without, it is left |
| `JsonGrammar.NumeralRead` | src/IotCommon/cJSON/cJSON.c:96-115 | sign, whole part, fraction and exponent are read as sign * digits * 10^(exponent - fraction digits), the digits being those of the whole part and the fraction |
| `JsonGrammar.UnescapeNulFree` | src/IotCommon/cJSON/cJSON.c:192-249 | a parsed string has no NUL inside, whatever the escapes |
| `JsonGrammar.ValuePrintable` | src/IotCommon/cJSON/cJSON.c:357-369 | every parsed tree whose numbers are ints can be printed |
| `JsonGrammar.ParsePrintParse` | src/IotCommon/cJSON/cJSON.c:323-403 | parse, print and parse changes nothing, for every text that parses and either format |
| `JsonBuilder.ParseWithOpts` | src/IotCommon/cJSON/cJSON.c:323-337 | returns null exactly when the grammar fails; otherwise a root in no list above fresh, well-linked nodes that hold what the text spells, and the index the text ends at |
| `JsonBuilder.ReadValue` | src/IotCommon/cJSON/cJSON.c:357-369 | succeeds exactly when a value starts here, leaves below the node a fresh tree of that value and returns the index behind it |
| `JsonBuilder.ReadArray` | src/IotCommon/cJSON/cJSON.c:406-431 | the same for arrays; the children are doubly linked in order |
| `JsonBuilder.ReadMoreItems` | src/IotCommon/cJSON/cJSON.c:419-428 | the loop over elements: it links each new node behind the last and keeps the children a well-formed list of distinct trees that hold the values read so far |
| `JsonBuilder.ReadObject` | src/IotCommon/cJSON/cJSON.c:514-547 | the same for objects; every child carries its name |
| `JsonBuilder.ReadNamed` | src/IotCommon/cJSON/cJSON.c:525-529 | the name is read as the child's string value and moved to its name; the value read after the colon is the child's |
| `JsonParser.ReadNumber` | src/IotCommon/cJSON/cJSON.c:96-115 | the loops over digits read what the recursive scan does, of which `JsonGrammar.NumeralRead` says what it means; rounding to a double is left out |
| `JsonParser.ReadString` | src/IotCommon/cJSON/cJSON.c:192-249 | fails exactly without an opening quote; otherwise the buffer ends up holding the transcoded literal, and every write stays in what the first scan allocated |
| `JsonParser.TranscodeEscape` | src/IotCommon/cJSON/cJSON.c:207-241 | one escape sequence: exactly the bytes it stands for are written and exactly its characters consumed; lone surrogates and the zero escape write nothing |
| `JsonParser.WriteUtf8` | src/IotCommon/cJSON/cJSON.c:228-237 | the bytes written backwards from the end are the UTF-8 encoding |
| `JsonParser.CountString` | src/IotCommon/cJSON/cJSON.c:197 | the first scan's count |
| `JsonStrings.LiteralMeaning` | src/IotCommon/cJSON/cJSON.c:192-249 | every well-formed literal (section 7 of RFC 8259) transcodes to the concatenation of its raw bytes, short escapes and the UTF-8 encodings of its units and surrogate pairs, \u0000, surrogates that do not pair up and the escape behind a high one that is not its low half being dropped, ends right behind its closing quote and fits the allocation |
| `JsonUnicode.PointRead` | src/IotCommon/cJSON/cJSON.c:210-237 | an escape that spells the 16-bit number of a code point, or two that spell its surrogates, computed from the code point by division, is read as its UTF-8 |
| `JsonUnicode.PointsLiteral` | src/IotCommon/cJSON/cJSON.c:192-249 | a literal that spells any code points by their UTF-16, hexadecimal digits in either case, is read as the UTF-8 of these code points |
| `JsonStrings.NeverMoreThanCounted` | src/IotCommon/cJSON/cJSON.c:197-239 | whatever the escapes, transcoding writes no more bytes than the first scan counted |
| `JsonStrings.ParseQuote` | src/IotCommon/cJSON/cJSON.c:192-307 | every C string reads back from its printed literal |
| `Utf8.DecodeEncode` | src/IotCommon/cJSON/cJSON.c:228-237 | a strict decoder (section 3 of RFC 3629) gets every scalar value back from the bytes written for it |
| `Utf8.EncodeDecode` | src/IotCommon/cJSON/cJSON.c:228-237 | and those are the only bytes it accepts for the value |
| `JsonMinify.TidyPrint` | src/IotCommon/cJSON/cJSON.c:735-750 | in front of any text, the minifier turns a printed tree, at any depth and in any format, into its unformatted text |
| `JsonMinify.MinifyFormatted` | src/IotCommon/cJSON/cJSON.c:735-750 | minifying formatted or unformatted output gives unformatted output |
| `JsonMinify.WhiteSpaceDropped` | src/IotCommon/cJSON/cJSON.c:740-743 | blanks, tabs and line ends vanish |
| `JsonMinify.LineCommentDropped` | src/IotCommon/cJSON/cJSON.c:744 | a comment behind two slashes vanishes with the end of its line |
| `JsonMinify.BlockCommentDropped` | src/IotCommon/cJSON/cJSON.c:745 | a comment between slash-star and star-slash vanishes, whatever lines it spans |
| `JsonMinifyMeaning.MinifyKeepsMeaning` | src/IotCommon/cJSON/cJSON.c:323-339 | every document the parser accepts to its end, with whatever white space, escapes and numbers, parses to the same tree after it is minified, unless it is a lone string without its closing quote |
| `JsonMinifyMeaning.MinifyAccepted` | src/IotCommon/cJSON/cJSON.c:735-750 | among the documents the parser accepts to their end, the minifier stays within the text of all but those that are a lone string without its closing quote |
| `JsonMinifyMeaning.LiteralElsewhere` | src/IotCommon/cJSON/cJSON.c:177-249 | the parser ends a string literal at the quote where the minifier does, surrogate pairs and escaped quotes included, and reads it the same in front of any text |
| `JsonMinifyMeaning.NumberElsewhere` | src/IotCommon/cJSON/cJSON.c:96-115 | a number with sign, fraction and exponent reads the same in front of anything that cannot go on with it |
| `JsonMinifyMeaning.ValueKept` | src/IotCommon/cJSON/cJSON.c:357-369 | what the minifier leaves of a value reads as the same value wherever it stands |
| `JsonMinify.MinifyNext` | src/IotCommon/cJSON/cJSON.c:738-747 | one turn of the loop drops or copies down one token; the write index never passes the read index, and what is still to be read is untouched |
| `JsonMinify.MinifyInPlace` | src/IotCommon/cJSON/cJSON.c:735-750 | the buffer ends up with what the minifier leaves of its text, terminated |
| `JsonPrintBuffer.PrintBuffer.Ensure` | src/IotCommon/cJSON/cJSON.c:121-136 | makes the room asked for, keeps all earlier bytes, and grows only when it must, to the least power of two |
| `JsonPrintBuffer.PrintBuffer.Update` | src/IotCommon/cJSON/cJSON.c:138-144 | moves the offset just past the text behind it, even where an array or object left it before its closing bracket |
| `PowerOfTwo.LeastPower` | src/IotCommon/cJSON/cJSON.c:117 | smearing gives the least power of two that is not smaller, for every size that leaves it in an int |
| `JsonPrintBuffer.PrintString` | src/IotCommon/cJSON/cJSON.c:252-307 | the literal and its NUL are written behind the offset, in the room that was counted |
| `JsonPrintBuffer.PrintValue` | src/IotCommon/cJSON/cJSON.c:372-403 | behind what is done the buffer holds the reference text, terminated; earlier bytes stay; the index returned for a formatted object that is not empty is its depth, for anything else where its text starts |
| `JsonPrintBuffer.PrintElements` | src/IotCommon/cJSON/cJSON.c:456-463 | the loop over elements writes their reference text with the offset at its end |
| `JsonPrintBuffer.PrintMembers` | src/IotCommon/cJSON/cJSON.c:573-604 | the loop over members, with indentation, names and separators, does too |
| `JsonPrintBuffer.ComposeObject` | src/IotCommon/cJSON/cJSON.c:567-607 | brace, members and closing brace; the index returned for formatted output is overwritten while indenting |
| `JsonPrintBuffer.PrintBuffered` | src/IotCommon/cJSON/cJSON.c:345-353 | at depth zero the text stands at the start of the buffer, and that is the index returned |
| `JsonTexts.PrintNulFree` | src/IotCommon/cJSON/cJSON.c:372-658 | printed text has no NUL inside, which finding its end relies on |
| `JsonLayout.ArrayLayout` | src/IotCommon/cJSON/cJSON.c:434-508 | elements stand between brackets, a comma between each two, and a blank behind it in formatted text |
| `JsonLayout.FormattedObject` | src/IotCommon/cJSON/cJSON.c:549-658 | a formatted object has a line for each member, indented by as many tabs as it is deep, with colon and tab between name and value and a comma at its end but for the last, and its brace on a line of its own |
| `JsonLayout.PlainObject` | src/IotCommon/cJSON/cJSON.c:549-658 | in unformatted text nothing stands around names, colons, values and commas |
| `JsonLayout.EmptyObject` | src/IotCommon/cJSON/cJSON.c:557-566 | an object without members is two braces, with a new line and one tab less than it is deep between them in formatted text |
| `JsonLayout.EscapeIs` | src/IotCommon/cJSON/cJSON.c:281-303 | quote, backslash and five control characters are escaped by a letter, the other control characters by four lower-case digits, and nothing else is |
| `JsonQuote.CountEscaped` | src/IotCommon/cJSON/cJSON.c:281 | the counting pass counts the escaped text exactly |
| `JsonQuote.EscapeNothing` | src/IotCommon/cJSON/cJSON.c:257-269 | where no character needs escaping, the copying path and the escaping path agree |
| `JsonQuote.PutQuoted` | src/IotCommon/cJSON/cJSON.c:257-306 | either path writes the quoted string and its NUL in exactly the room counted, and leaves everything before it |
| `JsonPrinter.PrintString` | src/IotCommon/cJSON/cJSON.c:252-307 | the allocated literal fills its buffer to the last byte |
| `JsonPrinter.ArrayFits` | src/IotCommon/cJSON/cJSON.c:468-508 | the size summed for an array takes its text and NUL, for any depth, number of entries and mode |
| `JsonPrinter.ObjectFits` | src/IotCommon/cJSON/cJSON.c:608-655 | so does the size summed for an object that is not empty |
| `JsonPrinter.ComposeArray` | src/IotCommon/cJSON/cJSON.c:497-508 | joins the pieces to the reference text without leaving the buffer |
| `JsonPrinter.ComposeObject` | src/IotCommon/cJSON/cJSON.c:639-655 | joins names and values to the reference text without leaving the buffer |
| `JsonPrinter.PrintTree` | src/IotCommon/cJSON/cJSON.c:342-343 | returns a fresh buffer with the reference text, terminated |
| `JsonDuplicate.Duplicate` | src/IotCommon/cJSON/cJSON.c:708-733 | a recursive copy holds the same value and names in new nodes only, hangs in no list, and is linked well at every level; a flat copy has no children; it ends for every tree |
| `JsonDuplicate.DuplicateChildren` | src/IotCommon/cJSON/cJSON.c:721-731 | the walk along the original's children links a copy of each, in order, and leaves the original as it was |
| `JsonLists.GetArrayItem` | src/IotCommon/cJSON/cJSON.c:662 | the child at an index, or null past the end; a negative index is the first |
| `JsonLists.GetArraySize` | src/IotCommon/cJSON/cJSON.c:661 | the number of children |
| `JsonLists.AddItemToArray` | src/IotCommon/cJSON/cJSON.c:671 | appends to the sequence of children, and keeps next and prev mirror images |
| `JsonLists.DetachItemFromArray` | src/IotCommon/cJSON/cJSON.c:677-678 | removes at an index and leaves the node in no list; no change past the end |
| `JsonLists.InsertItemInArray` | src/IotCommon/cJSON/cJSON.c:684-685 | inserts at an index, appends past the end |
| `JsonLists.ReplaceItemInArray` | src/IotCommon/cJSON/cJSON.c:686-688 | puts the new node in the old one's place; no change past the end |
| `JsonListRuns.PerformAll` | src/IotCommon/cJSON/cJSON.c:661-688 | after any run of edits with loose nodes, the pointers are those of a well-formed list, and the list is what the same edits make of the sequence |
| `BootLoader.Exchange` | src/jnFlasher/jennicCommon/JN51xx_BootLoader.c:970-988 | over any short writes and non-empty short reads, a request goes out as its frame, the other side's framed response comes back as its data, and the line is left right behind it |
| `BootLoader.Delivered` | src/jnFlasher/jennicCommon/JN51xx_BootLoader.c:1057-1147 | a frame of type, response and data is received as exactly these for every schedule of non-empty short reads, and nothing behind it is taken |
| `BootLoader.Noticed` | src/jnFlasher/jennicCommon/JN51xx_BootLoader.c:1114-1127 | any single changed byte behind the length byte gives a CRC error |
| `BootLoader.NothingInvented` | src/jnFlasher/jennicCommon/JN51xx_BootLoader.c:1057-1147 | whatever the line does, a reply that is not an error was sent as a frame, which is taken off the line whole |
| `BootLoader.WriteMessage` | src/jnFlasher/jennicCommon/JN51xx_BootLoader.c:1004-1043 | refuses exactly what does not fit; otherwise what goes out is the frame, or as much of it as the line took before it broke |
| `BootLoader.ReadRest` | src/jnFlasher/jennicCommon/JN51xx_BootLoader.c:1086-1099 | the read loop ends on every schedule and collects what the recursive reading of the schedule says |
| `BootLoader.TenEmptyReads` | src/jnFlasher/jennicCommon/JN51xx_BootLoader.c:1086-1099 | ten reads in a row that bring nothing end the message, nine and one that brings the rest complete it |
| `BootLoader.TooShort` | src/jnFlasher/jennicCommon/JN51xx_BootLoader.c:1078-1082 | a message of less than three bytes is none |
| `BootLoader.ReadMessage` | src/jnFlasher/jennicCommon/JN51xx_BootLoader.c:1057-1147 | the reply, the bytes taken off the line and the events used are those of the specification, in every case |
| `BootLoader.Request` | src/jnFlasher/jennicCommon/JN51xx_BootLoader.c:970-988 | a request is sent exactly if it can be framed and the line does not break, and only then is a reply read |
| `BootLoader.CheckResponse` | src/jnFlasher/jennicCommon/JN51xx_BootLoader.c:1150-1173 | success is exactly a clean code with the expected type; not supported, write failed and read failed have an error each, and everything else is a failed communication |
| `Frames.FrameWellFormed` | src/jnFlasher/jennicCommon/JN51xx_BootLoader.c:1017-1039 | every frame built cancels out to zero, and its first byte counts the rest |
| `Frames.WellFormedIsFrame` | src/jnFlasher/jennicCommon/JN51xx_BootLoader.c:1017-1039 | and every byte string with these two properties is such a frame, in one way for each header length |
| `Uart.AllSent` | src/jnFlasher/jennicCommon/uart.c:361-386 | unless the line breaks, short writes and busy lines get everything out |
| `Uart.Line.Write` | src/jnFlasher/jennicCommon/uart.c:361-386 | what gets out is the prefix the schedule allows, all of it exactly on success |
| `Uart.Line.Read` | src/jnFlasher/jennicCommon/uart.c:287-347 | brings at most what was asked for, in order, and nothing on a time-out or error |
| `Commands.UnderstoodAsMeant` | src/jnFlasher/jennicCommon/JN51xx_BootLoader.c:544-832 | every flash or RAM request that can be sent is told apart from all others by what arrives, address and data included |
| `Commands.OnTheLine` | src/jnFlasher/jennicCommon/JN51xx_BootLoader.c:544-833 | the bytes of each request: its type, the address lowest byte first, and the data, or the length asked for in two bytes, lowest first; nothing else |
| `Commands.WriteLimit` | src/jnFlasher/jennicCommon/JN51xx_BootLoader.c:575-832 | a read is framed up to 252 bytes; a write exactly up to 249, though the length check admits three lengths more |
| `Session.SendCommand` | src/jnFlasher/jennicCommon/JN51xx_BootLoader.c:544-833 | a command framed, sent over a line that fragments both ways, understood, carried out and answered by the chip has the effect on the chip, the data and the status of a request made to the chip itself, refusals and lost replies included; a read that does not bring the bytes asked for fails as such whatever its code |
| `Programmer.Context.FlashProgram` | src/jnFlasher/jennicCommon/programmer.c:640-747 | on a chip whose writes do not go wrong, success leaves the patched image at its offset and 0xFF everywhere else; the MAC address stands in the flash where the part wants it; the write requests are the tiles of 128 bytes of that range; each refusal has its status and erases and writes nothing, and without one success is certain if every answer is good |
| `Programmer.TilesCover` | src/jnFlasher/jennicCommon/programmer.c:707-725 | the tiles run from the start of the range to its end without gap or overlap, all of them whole chunks but the last |
| `Programmer.Context.FlashErase` | src/jnFlasher/jennicCommon/programmer.c:569-637 | blank flash, and on parts that can be read a blank first 64 bytes even if the erase went wrong |
| `Programmer.Context.FlashVerify` | src/jnFlasher/jennicCommon/programmer.c:750-834 | succeeds only if the flash equals the patched image on its range, and does whenever it equals it, the part is not protected and every answer is good; it changes no flash |
| `Programmer.Context.ProgramThenVerify` | src/jnFlasher/jennicCommon/programmer.c:640-834 | verifying after a good programming succeeds |
| `Programmer.Context.SetUpImage` | src/jnFlasher/jennicCommon/programmer.c:2471-2512 | puts the MAC address at its place in the image in place, or refuses the part |
| `Programmer.Places` | src/jnFlasher/jennicCommon/programmer.c:2471-2512 | for the chip ids: the address at 0x10 on the JN5142 and the later JN5148, at 0x30 on the earlier JN5148, nowhere on the JN516x, and other parts refused |
| `Programmer.Fields` | src/jnFlasher/jennicCommon/ChipID.h:65-68 | part and version are fields of the chip id |
| `RamLoader.MemoryLoadExecute` | src/jnFlasher/jennicCommon/programmer.c:912-1069 | the chip is told to run at most once, and whatever bytes its writes left, only with the text in place outside bss, all of it where the two are disjoint; bss lies in RAM, and is zero if no write went wrong, as it is not read back; before that text is written in chunks of 248 bytes and bss in chunks of 127; each refusal has its status and leaves the RAM alone, and without one success is certain if every answer is good and everything fits |
| `RamLoader.LoadChunk` | src/jnFlasher/jennicCommon/programmer.c:990-1008 | a chunk that passes the comparison is in RAM and nothing else has changed, even if the write went wrong |
| `RamLoader.LoadText` | src/jnFlasher/jennicCommon/programmer.c:978-1017 | the loop over the text: after success all of it stands in RAM, whatever became of the writes |
| `RamLoader.ClearBss` | src/jnFlasher/jennicCommon/programmer.c:1030-1057 | after success the text outside bss still stands, whatever became of the writes, and bss is zero if none went wrong |
| `RamLoader.AllTextStands` | src/jnFlasher/jennicCommon/programmer.c:978-1068 | where text and bss are disjoint, what runs is all of the text |
| `IndexSector.PackedUnpacked` | src/jnFlasher/jennicCommon/JN51xx_BootLoader.c:626-646 | words packed for a chip of either byte order unpack to what they were, and the other way |
| `IndexSector.ByteOrder` | src/jnFlasher/jennicCommon/JN51xx_BootLoader.c:626-646 | the lowest byte of a value comes first on a little endian chip and last on a big endian one |
| `IndexSector.InOrder` | src/jnFlasher/jennicCommon/JN51xx_BootLoader.c:626-646 | the four values of a word stand at rising addresses |
| `IndexSector.OnesAreBlank` | src/jnFlasher/jennicCommon/programmer.c:1388-1402 | the comparison with 0xFF tells blank words from written ones, in either byte order |
| `IndexSector.IndexChip.IndexSectorWrite` | src/jnFlasher/jennicCommon/programmer.c:1362-1447 | changes at most a word that was blank; success means it was and now holds the data; a written word is refused and stays; success is certain on a blank word if nothing stands in the way |
| `OneTime.PerformAll` | src/jnFlasher/jennicCommon/programmer.c:1362-1619 | over any run of MAC, key, user-data and settings writes, whatever chip and user answer each, a word once written never changes |
| `OneTime.SetAndGetMac` | src/jnFlasher/jennicCommon/programmer.c:1450-1478 | a MAC address set on a blank word reads back byte for byte in either byte order, unless it is all 0xFF, which reads as the factory's |
| `OneTime.MacInSector` | src/jnFlasher/jennicCommon/programmer.c:1471-1474 | the bytes of the address in the sector, in either byte order |
| `OneTime.Addresses` | src/jnFlasher/jennicCommon/programmer.c:121-177 | where access word, settings, user data, both addresses and key are mapped in memory |
| `OneTime.MACAddressSet` | src/jnFlasher/jennicCommon/programmer.c:1450-1486 | writes the address to the customer's word only, and only if that is blank; on older parts it only keeps the address |
| `OneTime.ChipGetMacAddress` | src/jnFlasher/jennicCommon/programmer.c:2276-2306 | the customer's address, or the factory's if the customer's is all 0xFF |
| `OneTime.AesKeySet` | src/jnFlasher/jennicCommon/programmer.c:1513-1534 | writes the key to its word only, and only if that is blank; on success it reads back |
| `OneTime.UserDataSet` | src/jnFlasher/jennicCommon/programmer.c:1588-1619 | writes one of three words, and only if it is blank; other indices change nothing |
| `OneTime.DeviceConfigSet` | src/jnFlasher/jennicCommon/programmer.c:1744-1841 | touches at most the two words of the settings, the access word only to take access away, and only from blank; what it writes is the settings' bits in every copy; on success both words hold them and the programmer keeps the settings |
| `OneTime.DeviceConfigGet` | src/jnFlasher/jennicCommon/programmer.c:1622-1741 | reads the settings off the majority of the first three copies of each word |
| `OneTime.SetDamageGetConfig` | src/jnFlasher/jennicCommon/programmer.c:1622-1841 | from a blank sector, settings read back with every default resolved to its erased meaning, whatever becomes of one of the first three copies and of the fourth, in both words |
| `DeviceConfig.ConfigSurvives` | src/jnFlasher/jennicCommon/programmer.c:1654-1736 | the same for the bits alone |
| `DeviceConfig.CustomerLayout` | src/jnFlasher/jennicCommon/programmer.c:1789-1826 | what the access word holds, and which bits of the customer's word each setting clears |
| `DeviceConfig.WordsRead` | src/jnFlasher/jennicCommon/programmer.c:1655-1728 | what is read of any two words: flash access is taken away if at most two of the four bits are set, and clear protection bits mean the highest level |
| `DeviceConfig.VoteExact` | src/jnFlasher/jennicCommon/programmer.c:1655-1670 | a vote is wrong exactly in the bits that two of the three copies have wrong |
| `NdefReader.WriteThenRead` | src/daemons/nfcRPiAlt/ndef.c:146-342 | what is written is read back, uri, payload and length, for every uri shorter than 40 bytes and payload that fit 1008 bytes in all, across small and large headers, if the tag has each part of the message that the cache has |
| `NdefReader.ReadWriteRead` | src/daemons/nfcRPiAlt/ndef.c:146-342 | after a read whose blocks cover a new message, the message that is written is read back, uri, payload and length |
| `NdefReader.SkippingExact` | src/daemons/nfcRPiAlt/ndef.c:304-317 | whatever the buffer holds behind the message, a write leaves the message in the tag if and only if the tag has each page's part of it that the cache has |
| `NdefReader.DifferentialIsFull` | src/daemons/nfcRPiAlt/ndef.c:304-317 | skipping pages leaves the tag as writing them all would, if and only if the cache mirrors the tag on every page skipped |
| `NdefReader.ReadMirrors` | src/daemons/nfcRPiAlt/ndef.c:176-179 | after a read the cache does, on every page of the blocks read |
| `NdefReader.OnesThenZeros` | src/daemons/nfcRPiAlt/ndef.c:304-317 | that happens: eight ones, then eight zeros, with a cache that was never filled |
| `NdefReader.Reader.Read` | src/daemons/nfcRPiAlt/ndef.c:146-229 | -1 exactly if the first block cannot be read, nothing at all if it announces no record or one that is too long; a positive result comes with the blocks of the tag in the cache and the uri and payload they hold |
| `NdefReader.Reader.Write` | src/daemons/nfcRPiAlt/ndef.c:244-342 | on success the tag has every page that differed from the cache, and the commands sent are one for each of these, in order |
| `NdefReader.BuildContent` | src/daemons/nfcRPiAlt/ndef.c:246-289 | the buffer starts with the message: headers, uri, payload, end marker |
| `Ndef.MessageFound` | src/daemons/nfcRPiAlt/ndef.c:151-214 | any memory that starts with a message is read as that message, through both nested lengths |
| `Ndef.HeaderBytes` | src/daemons/nfcRPiAlt/ndef.c:246-285 | the headers byte by byte: flags, and lengths of one byte, or of two and four, highest byte first |
| `Ndef.LengthsRead` | src/daemons/nfcRPiAlt/ndef.c:153-205 | what a reader makes of any bytes: the same lengths, by the length byte 0xFF and the flag for short records |
| `Ndef.TooLong` | src/daemons/nfcRPiAlt/ndef.c:203-214 | a uri or payload that does not fit the caller's buffer is not copied |
| `Ndef.BlocksCover` | src/daemons/nfcRPiAlt/ndef.c:172-175 | the blocks read cover the announced record, and no whole block more |
| `LogRing.Follow` | src/IotCommon/newLog.c:178-281 | adding and tailing in any order with early stops: what the follower has in the end is what its calls passed, each of them on the history there was by then, from where the one before it stopped, up to the first no; a follower of one sender has entries of that sender only |
| `LogRing.FollowExact` | src/IotCommon/newLog.c:178-281 | of such a run: every selected entry up to where the follower stands is delivered exactly once and in order, across wrap-around, if and only if no call goes past one; for all senders, if and only if each call finds less than 120 entries behind |
| `LogRing.DeliveredInTime` | src/IotCommon/newLog.c:178-281 | a follower that never stops early gets everything of its sender that was added before its last call if less than 120 entries are added between calls, and a follower of all senders only then |
| `LogRing.SelectedOnly` | src/IotCommon/newLog.c:271 | a call for one sender selects the entries that name it, each as often as it is there, and no other; a call for sender 0 selects all |
| `LogRing.DeliveredOfSender` | src/IotCommon/newLog.c:254-281 | a timely follower of one sender gets each entry that names it as often as it was added before its last call, and no other |
| `LogRing.GatheredComplete` | src/IotCommon/newLog.c:254-281 | the same for any run of calls, each from where the one before it stopped |
| `LogRing.TailOnce` | src/IotCommon/newLog.c:254-281 | a follower that has everything still does after a call if and only if the call goes past no selected entry; for all senders, if and only if less than 120 are behind |
| `LogRing.LoopAll` | src/IotCommon/newLog.c:260-262 | looping all gives the whole log if and only if less than 120 entries were ever added |
| `LogRing.StopEarlyThenFill` | src/IotCommon/newLog.c:254-281 | at most 119 entries between two calls do not suffice after an early stop: here 120 are pending, none is delivered and the follower is taken past all of them |
| `LogRing.Log.Loop` | src/IotCommon/newLog.c:254-281 | passes the selected ones of the last entries, as many as the backlog modulo 120, in order, up to the first that the call-back says no to, and returns the index to go on from; a call for one sender passes entries of that sender only |
| `LogRing.LookedStop` | src/IotCommon/newLog.c:269-275 | a call stops short exactly behind a selected entry that the call-back says no to, having said yes to all it was passed before |
| `LogRing.Log.Add` | src/IotCommon/newLog.c:178-208 | adds the pieces of the text, in order, with its sender and time |
| `LogRing.PiecesJoin` | src/IotCommon/newLog.c:189-203 | the pieces concatenate to the text, are ceil(length / 98) in number, and each fits an entry |
| `LogRing.Log.GetIndex` | src/IotCommon/newLog.c:233-242 | -1 while nothing was added, else the place of the next entry |
| `PlugHistory.Meter.GetHistory` | src/IotCommon/plugUsage.c:286-331 | the buffer ends up with the highest reading of each period, gaps taking the value of the period before and the last one that of the readings out of range, or the lowest in range |
| `PlugHistory.OrderExact` | src/IotCommon/plugUsage.c:243-326 | for readings that are not negative, the filled history, and the difference of its ends, is the same in every order of the readings if and only if it is not so that a zero and a positive reading are in range and no positive one is older or in the last period |
| `PlugHistory.OrderFree` | src/IotCommon/plugUsage.c:243-326 | unless that is so, the result depends on the readings, not on the order they come in |
| `PlugHistory.OrderMatters` | src/IotCommon/plugUsage.c:259-261 | if it is so, two orders differ: by whether a zero or a positive reading comes last |
| `PlugHistory.ZeroReadingOrder` | src/IotCommon/plugUsage.c:259-261 | it happens to a meter that only counts up: a plug first read at zero and then at five has used nothing or five, depending on the order of the two |
| `PlugHistory.FilledIsLatest` | src/IotCommon/plugUsage.c:316-325 | for a meter that only counts up, each entry is the highest reading up to its period, or before the first positive one the lowest that was kept |
| `PlugHistory.SampleByAge` | src/IotCommon/plugUsage.c:247-255 | a reading falls in period k exactly if its age in whole minutes is at least k and less than k + 1 times the length; what lies less than a period ahead falls in the first |
| `PlugHistory.FilledByAge` | src/IotCommon/plugUsage.c:243-326 | for a meter that only counts up, an entry is the highest reading at least as many minutes old as the periods before it are long, if one of these is positive |
| `PlugHistory.NeverRisesExact` | src/IotCommon/plugUsage.c:243-326 | for a meter that only counts up, the history never rises going back in time, whatever the order of the readings, if and only if the order does not matter or the highest reading of no period in range is positive and below another one in range |
| `PlugHistory.FilledRises` | src/IotCommon/plugUsage.c:259-319 | otherwise some order of the readings makes the last entry higher than one that is not as far back |
| `PlugHistory.Consumption` | src/daemons/ControlInterface/dbget.c:261-262 | the 24-hour difference of a meter that only counts up is never negative, readings of zero and any order included |
| `PlugHistory.Meter.HistCb` | src/IotCommon/plugUsage.c:243-274 | one reading updates the period it falls in and the lowest, or the highest of the older ones |

## Left out

- Floating-point rendering and rounding of numbers: printing is modelled for C ints, and reading stops at the decimal number that is then rounded.
- Escape sequences that are cut short or not hexadecimal: the parser trusts them, so they are excluded by precondition.
- JsonMinify.MinifyInPlace: a text in which a string or comment is still open at its end makes the code read past it, and is excluded by precondition.
- Allocation failures, hooks, reference and constant-string flags, the error pointer, and freeing of nodes and buffers.
- JsonPrintBuffer.PrintBuffered: texts within 22 bytes of 2^30 or longer are excluded, where rounding a size up would leave the int; the sizes of the allocating printer are unbounded integers.
- JsonBuilder.ParseWithOpts: the nodes a failed parse had built are deleted by the code and simply dropped here; recursion depth is not bounded in either.
- Case-insensitive lookup, editing and creation of object members by name.
- Progress callbacks, status strings and debug output; the confirmation callback is its answer.
- Baud rate, reset, chip identification, flash identification and EEPROM requests, and the loading of the flash programmer extension, which is a flag that says whether it worked; returning from it is taken to work.
- Programmer.Context.FlashProgram: the image is shorter than 2^31 bytes, as its int index demands, and long enough to hold the MAC address where the part puts it there.
- Session.SendCommand: the loaders are proved over requests to the chip itself, with which this shares its contract, a line with enough events being there for each; the framing of the index sector's request is not modelled.
- Chip.Device.Request: a write to RAM that goes wrong leaves wrong bytes only where it was to write, one to flash may leave any bytes anywhere.
- RamLoader.MemoryLoadExecute: text is taken apart from the image, so patching the image does not reach it; only older parts patch.
- OneTime.ChipGetMacAddress: on older parts the address is read from flash, which is not modelled.
- NdefReader.Reader.Read: an announced record that passes the length check but whose last block does not fit the cache is excluded by precondition (`Ndef.BlocksFit` says which); inner lengths that run past the cache, or are 2^31 or more, copy nothing here.
- NdefReader.Reader.Write: messages of more than 1008 bytes, whose page numbers no longer fit a byte, are excluded.
- The shared memory segment and its semaphore: calls on the log are taken one at a time; its entry counter does not overflow.
- PlugHistory.OrderExact: readings are not negative; a meter's sum is not.
- Cleaning up of meter records and the usage lookup, whose time comparisons run against their comments.
- The command handlers, device tables, topology, sockets, audio, LED and web parts: plumbing around other libraries.
