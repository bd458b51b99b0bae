# Verification of the BSP core

This project models, in Dafny 4.11, the parts of the board support package where correctness is hardest to see, and
proves properties of them. `dafny verify dfyconfig.toml` checks the whole project.

**cJSON** (`BSP/src/cjson.c`). `JsonText` gives the grammar of the parser and the text of the printer as functions on
bytes, with the branches of the source; `JsonEmit`, `JsonRoundTrip` and `JsonLaws` prove the laws between the two.
`JsonNumber` is the number syntax with fractions and exponents, in exact arithmetic. `JsonSyntax` writes the language of
the parser down without the parser, as concrete syntax trees with their blanks, spellings and digits in byte values, and
`JsonLanguage` proves that the parser accepts exactly that language. `JsonCompact` and `JsonLayout` do the same for the
printer: of all texts for a value, unformatted text is the one in least spelling, and formatted text is that one with a
layout that is read off the text alone.
`CJsonHeap` models items as a class with the fields of the C struct, and malloc as an allocator that may fail at any
call and keeps a ghost set of live blocks. A ghost tree describes a piece of the heap completely: which blocks it is
made of and what they hold; a reference item is a tree of its own kind that owns no payload. `CJsonParseString` and
`CJsonParse` are the parser over that heap, `CJsonPrintScalar`, `CJsonTables` and `CJsonPrint` the printer with its
tables of temporaries and its buffers of measured size, `CJsonRoom` the measuring itself, `CJsonDelete`, `CJsonEdit` and
`CJsonDuplicate` the editing functions. The methods follow the loops and pointer updates of the source and are proved
against the functions on bytes, so the laws proved there hold of what the heap code reads and writes.

**The EEPROM driver** (`BSP/src/bsp_eeprom.c`). `EepromSpec` describes the device, whose page writes wrap inside eight
bytes, the page transaction over a bus that may leave any event unanswered, and a split transfer in its reference form.
`Eeprom` is the driver, byte by byte over the bus and page by page over the memory.

**The SD driver** (`BSP/src/bsp_sdio.c`). `SdTransfer` is the protocol between the task and the two interrupt handlers
as a system of atomic steps; `SdDriver` is the code, with interrupts allowed between any two statements, proved to take
only such steps. `SdInterrupts` says when the interrupts are enabled, when they are served if they preempt the task,
and what a wait that succeeds says of its transfer. `SdCommands` is the command side with arbitrary replies of the
card, which may take a command whose reply the driver does not accept. Its class invariant is that every application
command follows a CMD55 whose reply was accepted and which named the right card, and that such a CMD55 is followed by
an application command or another CMD55; every call that sends commands keeps it and says which commands it added.
Whether the card has read every command as the driver meant it is stated call by call: the only call that can spoil it
is the one that sends CMD13, and exactly if the command before it was a CMD55 that the card took and the driver took
for refused.

**Fixed-point code** (`Libraries/CMSIS/Include/arm_math.h`). `CircularBuffer` and `LinearInterp`.

Where the code differs from what its comments or callers may expect, the model follows the code:

- The formatted text of an empty object at depth zero is one byte longer than its block (`CJsonRoom.TextFits`), so the
  printing methods exclude exactly that input.
- Replacing an object's item drops the name that the new item had without freeing it. Exactly that name stays allocated
  without an owner, so nothing is lost if and only if the new item had none (`CJsonEdit.OldNameIsLost`,
  `CJsonEdit.ReplaceItemInObject`).
- The EEPROM driver does not look at the answer to the last byte of a page, so success does not imply that byte
  (`EepromSpec.RefusedLastByte`); a write is one write to a flat array if and only if each such byte was taken or stood
  there already (`EepromSpec.WriteIsFlat`, `EepromSpec.SuccessMeans`). The driver also refuses a transfer that would
  reach the last byte of the device.
- A start that is issued while SDIO interrupts are still enabled loses the guarantees of the transfer protocol
  (`SdTransfer.UnmaskedStartBreaks`). The next start finds them masked if and only if one interrupt was handled since
  the last (`SdInterrupts.NextStartIsMasked`, `SdInterrupts.StartsAreMasked`). A start whose commands fail leaves them
  enabled (`SdInterrupts.StartLeavesUnmasked`), so does a wait that succeeds without a data end
  (`SdInterrupts.MaskAfterSuccess`), and so do the callers in `Libraries/FatFs/source/diskio.c` (lines 127 and 177),
  which do not wait at all, unless an interrupt comes in time.
- The start of a write of a single block enables the interrupts of a read, so of all transfers an underrun is noticed
  exactly by a write of several blocks (`SdInterrupts.EnabledInterrupts`, `SdInterrupts.LoneFlagIsNoticed`,
  `SdInterrupts.UnderrunGoesUnreported`).
- No start clears the flag of the DMA interrupt. A wait can succeed although its transfer saw neither a data end nor a
  DMA interrupt nor the end of the countdown if and only if the flag is still set when the transfer starts
  (`SdInterrupts.SuccessWithoutTransfer`, `SdInterrupts.StaleFlagIsReachable`); with the flag clear it can by the
  countdown of its first loop alone (`SdInterrupts.SuccessIsEarned`, `SdInterrupts.ExpiredPollReturnsOk`).
- Clearing the static flags leaves a start-bit error, which spoils the next transfer if it was not handled
  (`SdInterrupts.StartBitErrorStays`, `SdInterrupts.LeftoverIsServed`, `SdInterrupts.StartBitErrorSpoilsNext`).
- A card may take a CMD55 whose reply the driver does not accept. A status command that follows is read as ACMD13
  (`SdCommands.MeantUnlessMisread`, `SdCommands.Driver.StatusAfterRefusal`).
- An erase whose card is still busy at the end of the countdown is reported as a success
  (`SdCommands.Driver.EraseStaysBusy`).
- The loops that wait for the reply to a command have no timeout (`SdTransfer.RepliesMayNotCome`).
- If the card becomes ready on the very last of the 65535 trials of ACMD41, the driver still reports an invalid voltage
  range (`SdCommands.Driver.PowerOnReadyAt`); `SdCommands.Driver.PowerOn` says exactly when it succeeds.
- The circular buffer loops mention negative increments but do not handle them, and the interpolation takes its index
  from the unsigned bits of the input, so its branch for a negative index is never taken.

## Model

| member | source | states |
|---|---|---|
| `Utf8.DecodeEncode` | BSP/src/cjson.c:142-189 | decoding the bytes emitted for a Unicode scalar value gives that value back, and they are well-formed UTF-8 of the announced length |
| `Utf8.EncodeDecode` | BSP/src/cjson.c:142-189 | any well-formed UTF-8 sequence is what the emitter produces for the value it decodes to |
| `Utf8.CombineSurrogates` | BSP/src/cjson.c:175-180 | splitting a supplementary value into its surrogate pair and combining the pair again is the identity, both ways |
| `Utf8.BitOperations` | BSP/src/cjson.c:142-189 | the masks, shifts and first-byte marks of the source equal the arithmetic the model uses: masks and shifts for all values, each mark for the values that the shifts leave under it |
| `JsonText.ParseValue` | BSP/src/cjson.c:275-287 | a successful parse ends strictly further on, still inside the terminated text; this is the termination measure of the mutual recursion |
| `JsonText.ParseItems` | BSP/src/cjson.c:308-333 | a list that parses consumes at least one byte and stops inside the text |
| `JsonText.ParseMembers` | BSP/src/cjson.c:394-427 | the same for the members of an object |
| `JsonText.ReadEscape` | BSP/src/cjson.c:160-194 | every escape that is not cut short emits fewer bytes than it takes up and never a terminator |
| `JsonEmit.EmitIsPrint` | BSP/src/cjson.c:290-305 | the tail form used in proofs is the printed text followed by the tail, for every value, depth and format |
| `JsonRoundTrip.ParsePrint` | BSP/src/cjson.c:275-305 | main law: parsing the printed text of any printable value, at any depth, formatted or not, before any rest that cannot extend a number, yields the same value and stops exactly at that rest |
| `JsonRoundTrip.ParsePrintedInt` | BSP/src/cjson.c:96-127 | every 32-bit integer survives printing and parsing, the least one included |
| `JsonRoundTrip.ReadEscapedText` | BSP/src/cjson.c:143-236 | unescaping what the printer escaped gives the string back, byte for byte |
| `JsonRoundTrip.ParseEmittedItems` | BSP/src/cjson.c:308-391 | the list form of the round trip, for arrays |
| `JsonRoundTrip.ParseEmittedMembers` | BSP/src/cjson.c:394-495 | the list form of the round trip, for members, whatever tabs stand before them |
| `JsonLaws.FormattingIsBlank` | BSP/src/cjson.c:271-272 | deleting every blank outside string literals from formatted text leaves the unformatted text, whatever the depths |
| `JsonLaws.ParsedIsPrintable` | BSP/src/cjson.c:143-200 | whatever the parser yields can be printed: its strings and names exist and hold no terminator, its numbers are 32-bit |
| `JsonLaws.PrintThenParse` | BSP/src/cjson.c:249-286 | canonical form: printing a parsed value and parsing that gives the parsed value again |
| `JsonLaws.PrintNulFree` | BSP/src/cjson.c:290-495 | printed text is a C string, as the strlen calls of the composing loops need |
| `JsonLaws.EscapeTranscodes` | BSP/src/cjson.c:167-189 | an escape emits exactly the UTF-8 of the scalar value that its UTF-16 code units stand for; a zero unit, a lone surrogate or a bad pair emits nothing |
| `JsonLaws.EveryScalarHasAnEscape` | BSP/src/cjson.c:167-189 | every scalar value but zero can be written as an escape or a pair that reads as its UTF-8 form |
| `JsonLaws.TwoPassesAgree` | BSP/src/cjson.c:143-200 | for every literal without a cut escape both passes stop at the same place, and the second writes no more than the first counted |
| `JsonLaws.PrintableIsKnown` | BSP/src/cjson.c:290-305 | every value that a text stands for can be printed |
| `JsonLaws.UnknownSpoils` | BSP/src/cjson.c:290-305 | a value with an unknown type, by itself or inside, cannot |
| `JsonSyntax.SkipBlanks` | BSP/src/cjson.c:249 | any row of bytes from 1 to 32 in front of a text is skipped |
| `JsonSyntax.ReadsAsMeant` | BSP/src/cjson.c:275-427 | the text of any concrete syntax tree, with any blanks at every place where the source skips them, any spelling of its strings and any digits, is read as what the tree means, up to its end |
| `JsonSyntax.ThenIsText` | BSP/src/cjson.c:275-427 | the text of a tree does not depend on what follows it |
| `JsonSyntax.HexDigitsByPlace` | BSP/src/cjson.c:170-173 | a hexadecimal digit, in either case, has its place in the row of digits as its value |
| `JsonSyntax.UnitByPlaces` | BSP/src/cjson.c:170-173 | four of them stand for a unit, the most significant first |
| `JsonLanguage.ExactlyTheLanguage` | BSP/src/cjson.c:249-427 | main law: a text is accepted with a value and an end, strictly or not, if and only if it is blanks, the text of a syntax tree that means this value, and the end, behind blanks if strict |
| `JsonLanguage.OpenForAReason` | BSP/src/cjson.c:96-200 | a text is outside the model only if somewhere in it stands an escape that is cut short, or a number with a fraction or an exponent or outside 32 bits |
| `JsonCompact.PrintedIsCompact` | BSP/src/cjson.c:119-495 | main law: the unformatted text of a printable value is, among all texts of syntax trees that mean it, the only one without blanks, with no digit too many and with only the escapes that are needed |
| `JsonLayout.FormattedIsLaidOut` | BSP/src/cjson.c:336-495 | outside literals, formatted text has a line end behind each opening brace and each comma between members, then as many tabs as brackets and braces are open, and the depth more; one tab less before a closing brace, two less in an empty object; one space behind a comma between items, one tab behind a colon; and no other blank |
| `JsonLayout.LayoutDetermines` | BSP/src/cjson.c:336-495 | two texts with this layout that differ only in blanks are the same |
| `JsonLayout.FormattedIsTheLayout` | BSP/src/cjson.c:271-272 | main law: a text is the formatted text of a value if and only if it has this layout and is the unformatted text once its blanks are taken out |
| `CJsonHeap.Node.Zeroed` | BSP/src/cjson.c:73-78 | a new item has all fields cleared |
| `CJsonHeap.ValueByType` | BSP/inc/cjson.h:32-40 | what an item stands for, by the type numbers of the header, and the bit that marks a reference |
| `CJsonHeap.ValuesInOrder` | BSP/src/cjson.c:290-495 | children are read in order, each under its own name |
| `CJsonHeap.Link` | BSP/src/cjson.c:503 | linking an item behind the last of a well-linked chain of separate trees gives a well-linked chain of separate trees, longer by that item |
| `CStrings.StrLen` | BSP/src/cjson.c:49-58 | finds the length of any string in any block |
| `CStrings.StrCpy` | BSP/src/cjson.c:336-391 | copies the string and its terminator, and changes nothing else |
| `CStrings.StrDup` | BSP/src/cjson.c:49-58 | a fresh block with the same string and nothing else allocated, or null and nothing allocated |
| `CJsonDelete.Delete` | BSP/src/cjson.c:81-93 | deleting a chain frees exactly the blocks its trees own, each once while it is live; payloads of references stay |
| `CJsonDelete.DeleteOne` | BSP/src/cjson.c:81-93 | one step of the loop frees exactly the blocks of one tree |
| `CJsonDelete.DeleteOneOfTwo` | BSP/src/cjson.c:81-93 | deleting one tree leaves every tree with other blocks as it was, so a copy and its source can be deleted in either order |
| `CJsonParseString.SkipBlanks` | BSP/src/cjson.c:249 | stops at the first byte that is no blank or is the terminator |
| `CJsonParseString.ReadDigits` | BSP/src/cjson.c:103 | reads a row of digits behind the number read so far, up to the first byte that is no digit |
| `CJsonParseString.ParseNumber` | BSP/src/cjson.c:96-116 | sign, whole part, fraction and exponent of any number are read as the number syntax says, in exact arithmetic; the item gets the whole part of the value where the conversion is defined; where the grammar reads a 32-bit number this is that number and its end |
| `JsonNumber.ReadNumeral` | BSP/src/cjson.c:96-116 | a numeral with any sign, whole part, row of digits behind the point and exponent, before any rest that cannot extend it, is read up to its end as mantissa and scale |
| `JsonNumber.NumeralValue` | BSP/src/cjson.c:103-111 | the value of that mantissa and scale is the whole part plus the fraction, times ten to the exponent |
| `JsonNumber.WholeNumbersAgree` | BSP/src/cjson.c:96-116 | on the numbers of the grammar the two ways of reading agree in value and end |
| `CJsonParseString.WriteUtf8` | BSP/src/cjson.c:183-189 | the falling-through cases write the UTF-8 form, last byte first, and change nothing before it |
| `CJsonParseString.CopyEscape` | BSP/src/cjson.c:160-194 | reads one escape and writes what it stands for, with every read and write in bounds |
| `CJsonParseString.CountString` | BSP/src/cjson.c:148 | counts as the first pass does |
| `CJsonParseString.CopyString` | BSP/src/cjson.c:153-197 | the block then holds the unescaped string and its terminator |
| `CJsonParseString.ParseString` | BSP/src/cjson.c:143-200 | null exactly when there is no quote or no memory; otherwise one new block with the string, which is all that was allocated |
| `CJsonParse.ParseValue` | BSP/src/cjson.c:275-287 | under any pattern of failed allocations the tree built so far is well-formed and is all that was allocated; without failures the value and the end are those of the grammar |
| `CJsonParse.ParseArray` | BSP/src/cjson.c:308-333 | the same for an array, including partial arrays left by a failure |
| `CJsonParse.ParseItems` | BSP/src/cjson.c:317-331 | the loop over commas builds a well-linked chain that stands for the list the grammar reads |
| `CJsonParse.ParseObject` | BSP/src/cjson.c:394-427 | the same for an object |
| `CJsonParse.ParseMembers` | BSP/src/cjson.c:403-425 | the loop over commas, with names moved from the text field |
| `CJsonParse.ParseMember` | BSP/src/cjson.c:404-410 | a member read into an item: its name owned as the name, its value as the payload, whichever part fails |
| `CJsonParse.ParseWithOpts` | BSP/src/cjson.c:252-266 | null exactly when there is no text, memory ran out or the grammar rejects the text, and then nothing stays allocated; otherwise a detached tree that is all that was allocated, standing for the parsed value, and the end the options ask for |
| `CJsonPrintScalar.IntFits` | BSP/src/cjson.c:123-124 | the text of any 32-bit number fits the 21 bytes it is given |
| `CJsonPrintScalar.PrintNumber` | BSP/src/cjson.c:119-125 | a block of 21 bytes that holds the decimal text |
| `CJsonPrintScalar.CountEscaped` | BSP/src/cjson.c:206-208 | the first pass counts the length of the escaped string |
| `CJsonPrintScalar.PrintStringPtr` | BSP/src/cjson.c:203-236 | a block exactly as long as the escaped text and its terminator, holding it; for a missing string the empty text |
| `CJsonRoom.TextFits` | BSP/src/cjson.c:336-495 | for every value, depth and format, the text and its terminator fit the block that was asked for if and only if the value is not an empty object printed with format at depth zero |
| `CJsonRoom.RoomBeyondText` | BSP/src/cjson.c:336-495 | how much is asked for beyond the text and its terminator, for every kind of value |
| `CJsonRoom.EmptyObjectOverruns` | BSP/src/cjson.c:438-447 | that case: three bytes are asked for, and the text has three bytes before its terminator |
| `CJsonTables.FreeEntries` | BSP/src/cjson.c:370-375 | the failure path frees exactly the entries that are there |
| `CJsonTables.FreePairs` | BSP/src/cjson.c:464-469 | the same for names and entries |
| `CJsonPrint.PrintValue` | BSP/src/cjson.c:290-305 | null exactly when memory ran out or some type tag has no text, and then nothing stays allocated; otherwise one new block, of the size asked for, that holds the text of the value |
| `CJsonPrint.PrintArray` | BSP/src/cjson.c:336-391 | the same for an array; all temporaries are released and every write is in bounds |
| `CJsonPrint.CollectItems` | BSP/src/cjson.c:355-363 | stops at the first failure; the entries hold the texts of the items and the length is their sum |
| `CJsonPrint.ComposeArray` | BSP/src/cjson.c:378-390 | puts the text together in the block and frees every entry once |
| `CJsonPrint.PrintObject` | BSP/src/cjson.c:430-495 | the same for an object with members or, where it does not overrun, without |
| `CJsonPrint.PrintEmptyObject` | BSP/src/cjson.c:438-447 | writes the text of the empty object inside its block, except in the one case that overruns |
| `CJsonPrint.CollectMembers` | BSP/src/cjson.c:450-459 | goes on after a failure; names and entries hold their texts and the length is their sum |
| `CJsonPrint.ComposeObject` | BSP/src/cjson.c:473-494 | puts the text together in the block and frees every name and entry once |
| `CJsonPrint.PrintFormatted` | BSP/src/cjson.c:271 | the entry point: a null item gives null, a tree its formatted text |
| `CJsonPrint.PrintUnformatted` | BSP/src/cjson.c:272 | the same without format, and without exception |
| `CJsonPrint.PrintedTextReads` | BSP/src/cjson.c:249-305 | the block that printing leaves, read as a text, strictly or not, gives the printed value and is used up |
| `CJsonEdit.StrCaseCmp` | BSP/src/cjson.c:39-44 | zero if and only if both names are missing, or they have the same length and at each place the same byte or the two cases of one of the 26 letters |
| `CJsonEdit.LowerMeansSameLetter` | BSP/src/cjson.c:42 | lowering makes two bytes equal if and only if they are equal or one of 65 to 90 and the byte 32 above it |
| `CJsonEdit.LookupIgnoresCase` | BSP/src/cjson.c:500 | a name and any respelling of its letters are found at the same place |
| `CJsonEdit.FindName` | BSP/src/cjson.c:500 | the place of the first child with a matching name, and no earlier child matches |
| `CJsonEdit.GetArraySize` | BSP/src/cjson.c:498 | the number of children |
| `CJsonEdit.GetArrayItem` | BSP/src/cjson.c:499 | the child at a place, a negative place counting as the first; null past the end |
| `CJsonEdit.GetObjectItem` | BSP/src/cjson.c:500 | the first child whose name matches, or null |
| `CJsonEdit.AddItemToArray` | BSP/src/cjson.c:508 | the children are those before and the item at the end; without an item nothing happens |
| `CJsonEdit.AddItemToObject` | BSP/src/cjson.c:509 | the same under a copy of the name, the old name freed; without memory the item is added nameless; the name may be any string but the item's own |
| `CJsonEdit.FreeOldName` | BSP/src/cjson.c:509 | when the name is copied it is still allocated if and only if it is not the old name of the item, which was freed just before |
| `CJsonEdit.CreateReference` | BSP/src/cjson.c:505 | a new item that owns nothing but itself, shows the same payload and, read as an item, has the same value as its source |
| `CJsonEdit.AddItemReferenceToArray` | BSP/src/cjson.c:510 | appends a reference; the item referred to is untouched |
| `CJsonEdit.AddItemReferenceToObject` | BSP/src/cjson.c:511 | the same under a name: the reference shares the payload of the item as it was, and owns itself and its name |
| `CJsonEdit.AddReferenceThenDeleteBoth` | BSP/src/cjson.c:510 | a reference is added to an array, the array deleted, and then the item referred to: exactly the blocks of the three are freed, each once, whether or not there was memory for the reference |
| `CJsonEdit.DetachItemFromArray` | BSP/src/cjson.c:513-514 | removes the child at the place, keeps the others in order and well linked, and hands over a detached tree |
| `CJsonEdit.DetachItemFromObject` | BSP/src/cjson.c:516 | the same for the child that GetObjectItem would find |
| `CJsonEdit.DeleteItemFromArray` | BSP/src/cjson.c:515 | frees exactly the blocks of that child |
| `CJsonEdit.DeleteItemFromObject` | BSP/src/cjson.c:517 | frees exactly the blocks of the first matching child |
| `CJsonEdit.LinkedWithout` | BSP/src/cjson.c:513-514 | cutting one item out of a well-linked chain leaves a well-linked chain of the others |
| `CJsonEdit.WithoutAt` | BSP/src/cjson.c:513-514 | what is left has the items before at their places and those behind one place earlier |
| `CJsonEdit.ReplaceItemInArray` | BSP/src/cjson.c:520-522 | the new item stands in the place of the old, whose blocks are freed; past the end nothing happens |
| `CJsonEdit.ReplaceItemInObject` | BSP/src/cjson.c:523 | the same for the first match, under a copy of the name that was looked for; what stays allocated without an owner is exactly the name the new item brought, so nothing if and only if it had none; without a match nothing changes and the new item is still the caller's |
| `CJsonEdit.OldNameIsLost` | BSP/src/cjson.c:523 | what stays allocated in a replacement and what then belongs to a child differ by exactly the name that the new item brought along, so they are the same if and only if it brought none |
| `CJsonDuplicate.Duplicate` | BSP/src/cjson.c:542-567 | null exactly for a null item or a failed allocation, and then nothing stays allocated; otherwise a detached copy made of fresh blocks only |
| `CJsonDuplicate.DuplicateKids` | BSP/src/cjson.c:557-565 | copies the children in order into a well-linked chain; a partial chain is left in the new item for deletion |
| `CJsonDuplicate.CopyHasSameValue` | BSP/src/cjson.c:542-567 | a copy stands for the same value as its source, so it prints the same text, and its root has the same name, text and number and is no reference |
| `EepromSpec.StoreInPage` | BSP/src/bsp_eeprom.c:17-48 | a page write that ends inside its page acts as a write to a flat array |
| `EepromSpec.StoreWraps` | BSP/src/bsp_eeprom.c:17-48 | one byte more goes to the start of the page instead |
| `EepromSpec.SplitFits` | BSP/src/bsp_eeprom.c:50-91 | the transactions of a transfer stay inside their pages, add up to it, and are as many as pages touched |
| `EepromSpec.WriteIsFlat` | BSP/src/bsp_eeprom.c:50-91 | a split write, successful or not, is one write of the bytes it got through to a flat array if and only if each last byte of a transaction among them was answered or stood there already |
| `EepromSpec.AnsweredWrite` | BSP/src/bsp_eeprom.c:50-91 | on a bus that answers, a write succeeds with all data in place after three bus events per page and one per byte |
| `EepromSpec.WriteSucceeds` | BSP/src/bsp_eeprom.c:17-91 | a split write succeeds if and only if the start and both address bytes of each page and every byte but the last of each page are answered |
| `EepromSpec.WriteAccepted` | BSP/src/bsp_eeprom.c:57-60 | a write succeeds if and only if it ends before byte 255 and everything the driver waits for is answered; on a bus that answers all its data is then in place; one that does not end there is refused without touching bus or memory |
| `EepromSpec.WriteEffect` | BSP/src/bsp_eeprom.c:17-91 | after any write, successful or failed part way, each byte of the range is the data if the driver got that far and the device took it, and otherwise what stood there; the moment of its answer is given in closed form |
| `EepromSpec.WriteStays` | BSP/src/bsp_eeprom.c:50-91 | whatever the bus does, nothing outside the range changes |
| `EepromSpec.SuccessMeans` | BSP/src/bsp_eeprom.c:43-47 | success means that the data is in place if and only if each last byte of a transaction was taken or stood there already |
| `EepromSpec.RefusedLastByte` | BSP/src/bsp_eeprom.c:43-47 | a concrete bus on which the driver reports success for a byte that was not stored |
| `EepromSpec.RunIsFlat` | BSP/src/bsp_eeprom.c:50-171 | after any run of writes and reads, accepted, refused or failed part way, on any bus, each byte is what the last write to reach it put there, or what stood there at the beginning |
| `EepromSpec.RunThenRead` | BSP/src/bsp_eeprom.c:50-171 | a read at the end of any run delivers those bytes: the whole range on success, and otherwise as much of it as it got |
| `EepromSpec.SequentialIsSlice` | BSP/src/bsp_eeprom.c:94-128 | a sequential read inside the memory is a slice of it |
| `EepromSpec.ReadSucceeds` | BSP/src/bsp_eeprom.c:94-171 | a split read succeeds if and only if its five events per page are all answered |
| `EepromSpec.ReadAccepted` | BSP/src/bsp_eeprom.c:137-140 | a read succeeds if and only if it ends before byte 255 and all its events are answered, and then delivers the whole range; one that does not end there is refused |
| `Eeprom.WritePage` | BSP/src/bsp_eeprom.c:17-48 | byte by byte over the bus, the driver does to the device exactly what the page transaction says, in result, memory and bus events |
| `Eeprom.Write` | BSP/src/bsp_eeprom.c:50-91 | with the widths of its variables, the driver issues the transactions of the reference splitter in order, all of them on success; it succeeds if and only if the transfer ends before byte 255 and all that it waits for is answered, and on a bus that answers the data is in place |
| `Eeprom.ReadPage` | BSP/src/bsp_eeprom.c:94-128 | delivers the bytes from the address on into the buffer, or touches nothing |
| `Eeprom.Read` | BSP/src/bsp_eeprom.c:130-171 | succeeds if and only if the range ends before byte 255 and all events are answered; the buffer then starts with the slice of the memory, on failure with what came before; the rest of it and the memory are unchanged |
| `Eeprom.CallAll` | BSP/src/bsp_eeprom.c:50-171 | any calls of the driver one after another do to memory and bus what the run of the reference operations does |
| `Eeprom.CallAllThenRead` | BSP/src/bsp_eeprom.c:50-171 | after any calls a read puts into the buffer, byte by byte, what the last write to reach each address put there |
| `SdTransfer.StepKeepsInv` | BSP/src/bsp_sdio.c:1355-1371 | every step of the task, the handlers and the peripheral keeps the invariant |
| `SdTransfer.RunsAreSafe` | BSP/src/bsp_sdio.c:1355-1371 | in every run whose starts are issued with interrupts masked: one interrupt handled per start at most, never over and failed at once, and one stop command exactly when a wait has ended since a start for several blocks |
| `SdTransfer.ErrorStays` | BSP/src/bsp_sdio.c:2190-2228 | an error stays until the next start |
| `SdTransfer.WaitReports` | BSP/src/bsp_sdio.c:1556-1599 | a wait returns the error of the source handled since the start, the five results named one by one, whenever it came; it returns success if and only if none was handled, the stop command did not fail and the second loop did not run out |
| `SdTransfer.LoopsEnd` | BSP/src/bsp_sdio.c:1561-1575 | whatever the interrupts do, the two loops of a wait that count a timeout down are over within a number of the task's own statements that the timeouts give, every statement counted |
| `SdTransfer.RepliesMayNotCome` | BSP/src/bsp_sdio.c:2333-2346 | the loop that waits for the reply to a command has no such bound: any run that is in it can go on with any number of statements of the task and be where it was |
| `SdTransfer.UnmaskedStartBreaks` | BSP/src/bsp_sdio.c:1355-1371 | from every state in which a start is issued with some interrupt enabled, a run leads to a transfer that is over and failed at once with two interrupts handled |
| `SdInterrupts.MaskBetweenStarts` | BSP/src/bsp_sdio.c:1355-1371 | in every run, from the statements of a start to the next start, exactly the interrupts of its kind are enabled until one is handled, and none afterwards |
| `SdInterrupts.EnabledInterrupts` | BSP/src/bsp_sdio.c:1355-1371 | for each of the six sources, when its interrupt is enabled: four of them exactly while a start is past its statements and nothing was handled, overrun then for all but a write of several blocks, and underrun for that one only |
| `SdInterrupts.NextStartIsMasked` | BSP/src/bsp_sdio.c:2224-2227 | the next start finds the interrupts masked if and only if one was handled since the last start |
| `SdInterrupts.StartsAreMasked` | BSP/src/bsp_sdio.c:1355-1371 | of all runs in which starts are issued at any time, those with the guarantees are exactly those in which an interrupt is handled between any two starts |
| `SdInterrupts.MaskAfterSuccess` | BSP/src/bsp_sdio.c:1556-1599 | after a wait that succeeds the interrupts are masked if and only if a data end was handled |
| `SdInterrupts.StartLeavesUnmasked` | BSP/src/bsp_sdio.c:1369-1396 | from the beginning, a proper start of each of the four kinds whose commands end early leaves its interrupts enabled |
| `SdInterrupts.FlagForcesHandler` | BSP/src/bsp_sdio.c:2190-2228 | when interrupts preempt the task, a flag that comes up after a start, with nothing pending or handled, forces a call of the handler before the task can run another statement if and only if the start enables it |
| `SdInterrupts.HandledIffRaised` | BSP/src/bsp_sdio.c:2190-2228 | at a statement of the task nothing has been handled since the start if and only if no flag that the start enables ever came up unhandled after its statements |
| `SdInterrupts.ErrorIsFirst` | BSP/src/bsp_sdio.c:2190-2228 | a transfer has failed if and only if the first call of the handler found no data end among the flags |
| `SdInterrupts.LoneFlagIsNoticed` | BSP/src/bsp_sdio.c:2190-2228 | a source that comes up alone is handled by the next statement of the task if the start enables it, and never otherwise |
| `SdInterrupts.LoneErrorIsReported` | BSP/src/bsp_sdio.c:1556-1599 | the wait then returns its error if the start enables it, and otherwise whatever it returns when nothing happens |
| `SdInterrupts.UnderrunGoesUnreported` | BSP/src/bsp_sdio.c:1615-1634 | after any run, for every kind of transfer but the write of several blocks, there is one with an underrun whose wait succeeds and which leaves the interrupts enabled, although interrupts preempt the task |
| `SdInterrupts.StartBitErrorStays` | BSP/src/bsp_sdio.c:261 | only the handler clears a start-bit error |
| `SdInterrupts.LeftoverIsServed` | BSP/src/bsp_sdio.c:1355-1371 | a flag that is up when a start that enables it is issued is handled in that transfer, whose wait then succeeds only if a data end was found as well |
| `SdInterrupts.StartBitErrorSpoilsNext` | BSP/src/bsp_sdio.c:261 | from the beginning, a start-bit error after the data end survives a wait that succeeds, and the next transfer fails with it although nothing comes up in it |
| `SdInterrupts.OnlyWaitsClear` | BSP/src/bsp_sdio.c:1362-1364 | the flag of the DMA interrupt stays until a wait clears it; no start does |
| `SdInterrupts.SuccessIsEarned` | BSP/src/bsp_sdio.c:1556-1599 | a wait that succeeds with nothing handled left its first loop by the DMA flag or by the end of its countdown; and if the flag was clear at the start and the countdown did not end, the DMA interrupt came since the start |
| `SdInterrupts.SuccessWithoutTransfer` | BSP/src/bsp_sdio.c:1362-1364 | a properly issued transfer can succeed without a data end, a DMA interrupt or the end of the countdown if and only if the DMA flag is set when it starts |
| `SdInterrupts.StaleFlagIsReachable` | BSP/src/bsp_sdio.c:1556-1599 | such a state comes about: a transfer ends by a data end, its wait succeeds, and its DMA interrupt comes afterwards |
| `SdInterrupts.ExpiredPollReturnsOk` | BSP/src/bsp_sdio.c:1561-1575 | after any run with the DMA flag clear there is a transfer of every kind in which nothing comes up, the first loop counts from 0xFFFFFFFF down to zero, and the wait returns success |
| `SdDriver.Driver.ProcessIRQSrc` | BSP/src/bsp_sdio.c:2190-2228 | handles the first raised source in the order of the code, sets the error that belongs to it, and disables all |
| `SdDriver.Driver.ProcessDMAIRQ` | BSP/src/bsp_sdio.c:2235-2254 | sets the end of the transfer and nothing else |
| `SdDriver.Driver.ReadBlock` | BSP/src/bsp_sdio.c:1355-1371 | statement by statement a run of the step system, whatever happens in between; no stop command is due, and exactly the read interrupts are enabled, or none if one was handled |
| `SdDriver.Driver.ReadMultiBlocks` | BSP/src/bsp_sdio.c:1488-1499 | the same with a stop command due |
| `SdDriver.Driver.WriteBlock` | BSP/src/bsp_sdio.c:1615-1634 | the same with no stop command due and the interrupts of a read, so that underrun is disabled in any case |
| `SdDriver.Driver.WriteMultiBlocks` | BSP/src/bsp_sdio.c:1750-1761 | the same with the write interrupts and a stop command due |
| `SdDriver.Driver.WaitOperation` | BSP/src/bsp_sdio.c:1556-1599 | for a call whose stop command gets its reply, after any number of polls: a run of the step system that sends one stop command exactly when it is due, clears the condition and returns the outcome; the wait after a write (lines 1849-1892) has the same statements |
| `SdCommands.Driver.constructor` | BSP/src/bsp_sdio.c:345-350 | the driver starts with nothing sent, no address and a quiet trace, whatever the replies of the card will be |
| `SdCommands.Driver.SendAnnounced` | BSP/src/bsp_sdio.c:2912-2945 | the application command goes out only after its CMD55 was accepted, which named address zero for ACMD41 and the published address otherwise |
| `SdCommands.Driver.PowerOn` | BSP/src/bsp_sdio.c:719-857 | CMD0, CMD8, one or two CMD55 as the reply to CMD8 decides, then announced ACMD41 with the voltage window that fits, none of them after the card said that it is ready; it succeeds if and only if the card said so, in time, before the last of the 65535 trials, and reports an invalid voltage if and only if all trials were used up; the card type is that of the last reply |
| `SdCommands.Driver.PowerOnReadyAt` | BSP/src/bsp_sdio.c:808-846 | a card that accepts everything and is first ready in a given trial is taken if and only if that comes before the last trial; the card that is ready in the last one is reported as an invalid voltage |
| `SdCommands.Driver.InitializeCards` | BSP/src/bsp_sdio.c:879-960 | CMD2, CMD3 and CMD9 up to the first refusal, the last with the address that CMD3 published; nothing when the power is off |
| `SdCommands.Driver.PublishAddress` | BSP/src/bsp_sdio.c:915-932 | CMD3, and the driver then has the address of an accepted reply and otherwise its old one |
| `SdCommands.Driver.FindScr` | BSP/src/bsp_sdio.c:2887-2945 | CMD16, CMD55 and ACMD51 up to the first refusal, with the published address |
| `SdCommands.Driver.EnWideBus` | BSP/src/bsp_sdio.c:2614-2721 | the SCR commands, then announced ACMD6 with the width; nothing for a locked card |
| `SdCommands.Driver.SendSdStatus` | BSP/src/bsp_sdio.c:2073-2122 | CMD16 and announced ACMD13 up to the first refusal; nothing for a locked card |
| `SdCommands.Driver.WriteMultiBlocks` | BSP/src/bsp_sdio.c:1763-1820 | CMD16, announced command 23 and CMD25 up to the first refusal; for a card of high capacity the first carries 512 and the last the number of the block of 512 bytes that the address lies in, for the others the block size and the address |
| `SdCommands.Driver.SendPlan` | BSP/src/bsp_sdio.c:2333-2472 | any ordinary commands one after another, up to the first refusal; the card reads all of them as meant unless the first has a number of an application command and follows a CMD55 that the card took and the driver took for refused |
| `SdCommands.Driver.TransferBlocks` | BSP/src/bsp_sdio.c:1374-1413 | CMD16 and CMD17, 18 or 24 up to the first refusal, with the same block size and place |
| `SdCommands.Driver.StopTransfer` | BSP/src/bsp_sdio.c:1919-1934 | CMD12 |
| `SdCommands.Driver.SelectDeselect` | BSP/src/bsp_sdio.c:1324-1339 | CMD7 with the low 32 bits of the address it is given |
| `SdCommands.Driver.SendStatus` | BSP/src/bsp_sdio.c:2048-2064 | CMD13 with the published address; it is read as meant if and only if it does not follow such a CMD55 |
| `SdCommands.Driver.EraseBlocks` | BSP/src/bsp_sdio.c:1942-2030 | CMD32 and CMD33 with the places of the two addresses, and CMD38, up to the first refusal, then CMD13; the card was busy at every poll but the last, and on success at the last only if the countdown was used up; nothing for a card that is locked or cannot erase |
| `SdCommands.Driver.EraseStaysBusy` | BSP/src/bsp_sdio.c:2019-2029 | a card that stays busy for ever is polled to the end of the countdown, and the erase then succeeds |
| `SdCommands.Driver.HighSpeed` | BSP/src/bsp_sdio.c:3028-3084 | the SCR commands, then for some cards CMD16 and the ordinary CMD6, which the card does not mistake for the application command of that number, and whose data may say that the card did not switch |
| `SdCommands.Sequel` | BSP/src/bsp_sdio.c:2614-2721 | two calls in a row perform the plan that is the one after the other |
| `SdCommands.SafeAppend` | BSP/src/bsp_sdio.c:2333-2472 | a trace stays safe when a command is added that is itself announced as it should be |
| `SdCommands.MeantUnlessMisread` | BSP/src/bsp_sdio.c:2346-2470 | the card has read every command as the driver meant it if and only if no number with an application meaning was sent as an ordinary command right after a CMD55 that the card took and whose reply was not accepted |
| `SdCommands.Driver.StatusAfterRefusal` | BSP/src/bsp_sdio.c:2038-2064 | when the CMD55 of an SCR read is not accepted and the status is asked for next, the card reads the status command as ACMD13 if and only if it took the CMD55 |
| `CircularBuffer.StaysInRing` | Libraries/CMSIS/Include/arm_math.h:6050-6056 | the offset stays in the ring from every place exactly for increments from zero to the length |
| `CircularBuffer.NegativeIncrementEscapes` | Libraries/CMSIS/Include/arm_math.h:6053 | a negative increment, which the comment means to allow, leaves the ring |
| `CircularBuffer.CircularWrite` | Libraries/CMSIS/Include/arm_math.h:6028-6066 | the ring holds the samples in the places that modular indices give, and the offset ends there modulo 2^16 |
| `CircularBuffer.WrittenCell` | Libraries/CMSIS/Include/arm_math.h:6028-6066 | for any increment each cell holds the last sample that fell on it, sample number i falling on the start plus i increments modulo the length, and otherwise what it held |
| `CircularBuffer.StridedAt` | Libraries/CMSIS/Include/arm_math.h:6028-6066 | sample number i is the one that the source pointer passes after i of its own increments |
| `CircularBuffer.CircularRead` | Libraries/CMSIS/Include/arm_math.h:6073-6123 | the destination gets the samples of those places, starting over at the end of its own buffer |
| `CircularBuffer.FetchedAt` | Libraries/CMSIS/Include/arm_math.h:6073-6123 | sample number j comes from the start plus j increments modulo the length |
| `CircularBuffer.DeliveredCell` | Libraries/CMSIS/Include/arm_math.h:6073-6123 | each cell of the destination holds the last sample put there, and otherwise what it held |
| `CircularBuffer.TargetGoesRound` | Libraries/CMSIS/Include/arm_math.h:6088-6110 | a destination whose length and start are multiples of its increment is gone round and round |
| `CircularBuffer.WriteThenRead` | Libraries/CMSIS/Include/arm_math.h:6028-6123 | a block that fits is read back as it was written |
| `CircularBuffer.OthersStay` | Libraries/CMSIS/Include/arm_math.h:6028-6066 | cells that no sample falls on keep their content |
| `CircularBuffer.RingHoldsLastRound` | Libraries/CMSIS/Include/arm_math.h:6028-6066 | after a full round or more each cell holds the last sample that fell on it, so the ring holds exactly the last samples |
| `LinearInterp.IndexFits` | Libraries/CMSIS/Include/arm_math.h:5613-5635 | for every input both table reads are in range; the index is never negative |
| `LinearInterp.InputSplits` | Libraries/CMSIS/Include/arm_math.h:5613-5630 | the upper twelve bits of the input are the index and the lower twenty the fraction |
| `LinearInterp.NothingOverflows` | Libraries/CMSIS/Include/arm_math.h:5637-5643 | no conversion to 32 bits changes a value, the final shift included |
| `LinearInterp.ErrorBound` | Libraries/CMSIS/Include/arm_math.h:5601-5646 | inside the table the result is at most one unit above and less than five below the exact interpolant between the two entries that the upper twelve bits select, at the place that the lower twenty give |
| `LinearInterp.BeyondTheTable` | Libraries/CMSIS/Include/arm_math.h:5615-5622 | past the last segment, and for negative inputs of tables up to 2049 values, the last value comes out |

## Left out

- `CJsonParseString.ParseNumber`: computes in exact arithmetic; the rounding of doubles, the overflow of the counter for
  the exponent, and the conversion to `int` where it is undefined are left out.
- `JsonText.ParseValue`: a text with a fraction, an exponent or a number outside 32 bits is outside the grammar and its
  laws, because printing such a number rounds; items of a tree hold 32-bit numbers, and `valuedouble` is no field of
  them.
- `CJsonEdit.AddItemToObject`: is not for the item's own name, which the code frees before it copies it
  (`CJsonEdit.FreeOldName`).
- Malformed escapes in string literals (cut short by the end of the text, or `\u` without four hexadecimal digits),
  after which the source reads past its input: such texts are outside the model.
- Widths of sizes: lengths and depths are unbounded integers, so an overflow of the `int` counters for texts beyond
  2 GB is not modelled; neither is the depth of the stack.
- The allocator hooks, the error pointer `ep`, and the constructors for whole arrays of numbers or strings.
- Chains that a caller builds by hand with cycles or with one item in two places: the methods ask for separate trees.
- `CJsonParse.ParseValue`: takes the text as a sequence that is not changed, so a text that overlaps the heap of items
  is not modelled.
- `EepromSpec.Write`: transfers of length zero are not modelled for the page functions, which would use the byte before
  the data; the delay after a write and the bit level of the bus are left out. bsp_i2c2.c is not part of this model.
- `SdTransfer.RunsAreSafe`: starts are issued with interrupts masked; `SdInterrupts.StartsAreMasked` says exactly when
  they are, and `SdTransfer.UnmaskedStartBreaks` what happens otherwise. The start in `SD_HighSpeed`, which enables no
  interrupt, is left out.
- `SdTransfer.LoopsEnd`: covers the two loops of a wait that count a timeout down. The loops that wait for the reply to
  a command do not end without one (`SdTransfer.RepliesMayNotCome`).
- `SdDriver.Driver.WaitOperation`: is, like the starts, a call to whose commands the replies come.
- The error codes of the card's replies are one code in `SdCommands`; register setup, DMA and NVIC configuration,
  polling mode, the commands for other kinds of card, and the contents of the CSD, CID, SCR and status are left out.
- `CircularBuffer.CircularWrite`: asks for an increment from zero to the length and an offset inside the ring, outside
  of which the loop leaves the ring (`CircularBuffer.StaysInRing`).
- `LinearInterp.ErrorBound`: is stated for tables of fewer than 2^31 values, which is more than memory can hold; beyond
  that the conversion of the table size to a signed number turns negative and the last value comes out.
- The float and Q7 interpolations, the Q7 and float rings, and bilinear interpolation.
- Network, MQTT, RTC, UART, SRAM and task code.
