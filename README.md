# A verified model of the F4HWN "Fusion" firmware core

This project models, in Dafny, the parts of the Quansheng UV-K5 "Fusion"
firmware that carry its own logic. Each module corresponds to one file of
the repository:

- **Aprs, AprsSession, AprsReceiver** (`App/app/aprs.c`, `App/app/aprs.h`):
  the APRS receiver.
  - The FSK chip delivers a frame between `0x7E` flags. Each byte is bit-reversed.
  - The frame is checked with the AX.25 frame check sequence (CRC-16, reflected polynomial `0x8408`).
  - It is split into a 7-byte address chain and decoded into a packet with a source, a destination, a digipeater path and a cleaned info field.
  - The packet is logged in an eight-entry ring. The APRS screen's keys walk the ring, toggle the detail view and clear the log.
- **AprsView** (`App/ui/aprs.c`): what the APRS screen prints.
  - The three-row list scrolls to keep the selection visible.
  - The detail view splits the info text into 21-character snippets at newlines.
- **HostSerial, HostCommands** (`App/app/uart.c`): the programming protocol on the serial port and the USB virtual port.
  - Frames are `AB CD size body crc DC BA`, with body and CRC XOR-obfuscated by a 16-byte key.
  - A scanner looks for a frame in the DMA ring buffer.
  - Commands: session open (`0x0514`), EEPROM read (`0x051B`) and EEPROM write (`0x051D`). The write command keeps the power-on password while the lock screen is up and reloads the settings when their blocks are written.
  - Replies are framed and obfuscated on the way out.
- **Action** (`App/app/action.c`): the side-key dispatcher.
  - A key's short or long binding is selected from the press/hold/release pattern.
  - A key deletes the last DTMF code while the DTMF input box is open.
  - The actions that change settings: power level, modulation, VOX, receive mode and main-only.
- **BadApple** (`App/app/bad_apple.c`, `tools/badapple/process_badapple.py`): the run-length video player and its encoder.
  - The Python tool packs each 128×64 frame into (count, colour) byte pairs of at most 255 pixels and lays the frames out by offset.
  - The firmware decodes a frame into the column-paged LCD frame buffer and plays frames until exit is requested.
- **Conditionals** (`scripts/refactor_conditionals.py`): the build-time script that removes `ENABLE_*` conditionals.
  - It resolves `#ifdef`, `#ifndef` and `#if defined` lines against the enabled and disabled feature lists, keeping the right branch with nesting taken into account.
  - It repeats the pass up to ten times until nothing changes.
- **Levels** (`App/ui/main.c`): the integer arithmetic of the main screen's meters.
  - The audio bar uses a `log2` approximation, a lookup table and a one-step decay.
  - The segmented level bar.
  - The RSSI clamp and the small antenna bars.
  - The transmit power level.
- **Display** (`App/ui/ui.c`): selecting the next screen.

Pure logic is written as functions. A global state that the C code updates
in place is a class: `AprsReceiver.Receiver`, `HostSerial.SerialPort`,
`HostCommands.CommandHandler`, `Action.Actions`, `Levels.AudioBar` and
`Display.Gui`. Each such class holds the source's variables, and each of its
methods is proved to perform a transition that a function specifies
(`Model() == AprsSession.HandleByte(old(Model()), b, rssi)`). The
properties are then proved about those functions. Loops in the source are
methods with loop invariants. The LCD frame buffer is an `array2<bv8>`, and
the DMA ring, the command buffer and the reply buffer are `array<bv8>`.

Some behaviour of the code that the model follows is worth knowing:

- The FSK chip delivers whole bytes: the firmware does no tone detection, NRZI decoding or bit de-stuffing of its own. The decoder skips the control and PID bytes without checking them.
- The address formula (each byte shifted right by one; SSID in bits 1-4; the last-address bit in bit 0) decodes the bytes `96 82 64 86 A0 40 E0` to `KA2CP` with SSID 0 and the last-address bit clear (`Aprs.SampleAddressParsed`, `Aprs.SampleAddressPrinted`).
- An `#ifdef`/`#ifndef` on a feature in neither list is treated as disabled by `#ifdef` and as not-disabled by `#ifndef`. Both drop the block (`Conditionals.UnknownFeatureDropsBothWays`).
- A frame whose size field makes it exactly as long as the serial ring buffer passes the size check but can never be complete. The scanner waits on it until a new frame overwrites the ring (`HostSerial.RingSizedFrameWaits`).

## Model

| member | source | states |
|---|---|---|
| Display.NextDisplay | App/ui/ui.c:60-82 | an invalid screen changes nothing; otherwise the screen is selected and redrawn; a different screen also closes the DTMF input box (mode off, index 0), resets the other pending input and requests a status redraw, and re-selecting the same screen only asks for a redraw |
| Display.SelectTwiceIsSelectOnce | App/ui/ui.c:60-82 | selecting the same screen twice has the effect of selecting it once |
| Display.Gui.SelectNextDisplay | App/ui/ui.c:60-82 | the UI globals after GUI_SelectNextDisplay are those NextDisplay gives |
| Aprs.ReverseByte | App/app/aprs.c:416-422 | bit i of the result is bit 7-i of the input |
| Aprs.ReverseByteInvolution | App/app/aprs.c:416-422 | reversing twice gives the byte back, and only the flag 0x7E reverses to the flag |
| Aprs.CrcRegisterSnoc | App/app/aprs.c:319-335 | the CRC register after data+[b] is one byte step of the register after data |
| Aprs.Crc | App/app/aprs.c:319-335 | the frame check sequence: the complemented CRC register; CrcCheckValue pins it to the X.25 check value |
| Aprs.CrcCheckValue | App/app/aprs.c:319-335 | the CRC of "123456789" is 0x906E, the X.25 check value |
| Aprs.UpdateCrc | App/app/aprs.c:324-331 | the eight-bit inner loop computes one byte step of the register |
| Aprs.CalculateCrc | App/app/aprs.c:319-335 | the loop returns the CRC of the first length bytes |
| Aprs.LittleEndianRoundTrip | App/app/aprs.c:263 | a 16-bit value written low byte first is read back unchanged |
| Aprs.AppendedFcsIsValid | App/app/aprs.c:261-265 | a body followed by its own CRC, low byte first, passes the frame check |
| Aprs.AddressChar | App/app/aprs.c:343-345 | an address byte shifted right yields a 7-bit character |
| Aprs.ParseAddress | App/app/aprs.c:337-356 | an address is read exactly when 7 bytes remain before the end, and its text is 6 characters |
| Aprs.ParseAddresses | App/app/aprs.c:267-276 | the address loop always ends; it keeps the addresses parsed so far, reads at most six, and stops 7 bytes per address further, within the payload |
| Aprs.StationAddress | App/app/aprs.c:337-356 | an encodable station decodes to a 6-character address |
| Aprs.StationAddresses | App/app/aprs.c:337-356 | one address per encoded station |
| Aprs.EncodeAddress | App/app/aprs.c:337-356 | the AX.25 encoding of a station is 7 bytes |
| Aprs.SsidOctetRoundTrip | App/app/aprs.c:350-352 | the SSID and the last-address bit are read back from the octet that encodes them |
| Aprs.ParseEncodedAddress | App/app/aprs.c:337-356 | parsing an encoded station gives back its callsign, SSID and last flag |
| Aprs.CodeRoundTrip | App/app/aprs.c:343 | a 7-bit character shifted into an address byte is read back |
| Aprs.EncodeChain | App/app/aprs.c:267-276 | an encoded chain is 7 bytes per station |
| Aprs.EncodedChainParses | App/app/aprs.c:267-276 | each 7-byte group of an encoded chain parses to its station, the last one flagged |
| Aprs.ParseChainAt | App/app/aprs.c:272-276 | the address loop started at any point of a chain reads exactly the rest of it |
| Aprs.ParseEncodedChain | App/app/aprs.c:267-276 | the loop over an encoded chain of 1 to 6 stations returns exactly those stations and the offset after them |
| Aprs.CString | App/app/aprs.c:361-363 | the C string of a buffer is no longer than the buffer |
| Aprs.CStringIsPrefix | App/app/aprs.c:361-363 | the C string is the prefix before the first NUL, and a NUL follows it when it is shorter |
| Aprs.CStringAt | App/app/aprs.c:363 | when the first NUL is at n the C string is the first n characters |
| Aprs.StrLen | App/app/aprs.c:363 | strlen returns the index of the first NUL, and the characters before it are the C string |
| Aprs.TrimTrailingSpaces | App/app/aprs.c:364-365 | trimming never lengthens the callsign |
| Aprs.TrimmedIsPrefix | App/app/aprs.c:364-365 | the trimmed callsign is a prefix, does not end in a space, and only spaces were removed |
| Aprs.SsidDecimal | App/app/aprs.c:373 | an SSID prints as one or two digits |
| Aprs.Snprintf | App/app/aprs.c:373 | snprintf output fits in size-1 characters and is the whole text when that fits |
| Aprs.FormatAddress | App/app/aprs.c:358-374 | APRS_FormatAddress: the callsign up to its NUL without trailing spaces, or "?", with "-SSID" when the SSID is non-zero, cut to destLen-1 characters; FormattedAddressFits states its bounds |
| Aprs.FormattedAddressFits | App/app/aprs.c:358-374 | a formatted address is 1 to 9 characters without NUL, so it fits the 12-byte source, destination and fragment fields untruncated |
| Aprs.SampleAddressParsed | App/app/aprs.c:337-356 | the bytes 96 82 64 86 A0 40 E0 parse to "KA2CP " with SSID 0 and the last-address bit clear |
| Aprs.SampleAddressPrinted | App/app/aprs.c:358-374 | that address prints as "KA2CP" |
| Aprs.AppendFragment | App/app/aprs.c:376-397 | appending never shortens the path and never overflows a path that fitted |
| Aprs.AppendPath | App/app/aprs.c:376-397 | after the in-place append the C string in the array equals Aprs.AppendFragment of the old C string |
| Aprs.CopyFragment | App/app/aprs.c:391-396 | the fragment is copied after the used part, cut at the buffer's end and terminated |
| Aprs.StrNCopy | App/app/aprs.c:395 | strncpy writes the source padded with NULs to n characters and changes nothing else |
| Aprs.Padded | App/app/aprs.c:395 | a padded copy is n characters: the source, then NULs |
| Aprs.PaddedCString | App/app/aprs.c:395-396 | the C string after strncpy and termination is the base followed by the copied part of the fragment |
| Aprs.BuildPath | App/app/aprs.c:295-299 | the digipeater path fits the 48-byte field |
| Aprs.PathFits | App/app/aprs.c:295-299 | with at most four digipeaters of 1 to 9 characters, the path is exactly their comma-separated join, never truncated |
| Aprs.CleanChar | App/app/aprs.c:302-307 | every info character is printable, and printable bytes are kept as they are |
| Aprs.CleanInfo | App/app/aprs.c:301-310 | the info text has one cleaned character per byte |
| Aprs.Fragments | App/app/aprs.c:295-299 | one path fragment per digipeater |
| Aprs.FragmentAt | App/app/aprs.c:296-297 | fragment i is digipeater i formatted into a 12-byte buffer |
| Aprs.DecodeAcceptance | App/app/aprs.c:253-317 | a frame decodes exactly when it is at least 18 bytes, its CRC checks, and its chain has two or more addresses followed by control and PID |
| Aprs.DecodedPacketFits | App/app/aprs.c:286-313 | a decoded packet's fields fit their C arrays (info at most 95 characters) and carry the given sequence number and RSSI |
| Aprs.ParseAddressChain | App/app/aprs.c:267-276 | the address loop returns what Aprs.ParseAddresses gives from offset 0 |
| Aprs.FormatPath | App/app/aprs.c:295-299 | the digipeater loop builds Aprs.BuildPath of the formatted fragments |
| Aprs.BuildPathStep | App/app/aprs.c:295-299 | each loop step appends one formatted fragment to the path so far |
| Aprs.CopyInfo | App/app/aprs.c:301-310 | the info loop produces the cleaned info text |
| Aprs.FormatHeader | App/app/aprs.c:291-299 | source is the second address, destination the first, and the path the rest |
| Aprs.AssemblePacket | App/app/aprs.c:281-313 | the packet equals Aprs.BuildPacket of the parsed chain |
| Aprs.FinishDecode | App/app/aprs.c:278-313 | the check after the address loop and the packet assembly equal Aprs.DecodeChain |
| Aprs.Decode | App/app/aprs.c:253-317 | APRS_DecodeFrame as a function: None for a short frame, a bad CRC or a bad address chain, else the packet; DecodeAcceptance states when it succeeds |
| Aprs.DecodeFrame | App/app/aprs.c:253-317 | APRS_DecodeFrame returns exactly Aprs.Decode of the frame |
| Aprs.DecodeAddressChain | App/app/aprs.c:267-313 | the address loop and the rest of the decode equal Aprs.DecodeAddresses |
| AprsSession.Slot | App/app/aprs.c:176 | a ring index is within the eight-entry log |
| AprsSession.PacketAt | App/app/aprs.c:171-178 | APRS_GetPacket returns a packet exactly for an index below the count |
| AprsSession.Newest | App/app/aprs.c:171-178 | the n newest entries, newest first, read from the ring |
| AprsSession.Entries | App/app/aprs.c:166-178 | the log as a newest-first list whose i-th entry APRS_GetPacket(i) returns |
| AprsSession.Store | App/app/aprs.c:399-409 | storing keeps the ring consistent, counts up to eight, selects the newest entry and asks for a redraw |
| AprsSession.SlotAfterStore | App/app/aprs.c:401 | after the head advances, each older entry is one index further back and never at the new head |
| AprsSession.StoreEntries | App/app/aprs.c:399-409 | storing puts the packet in front of the newest-first list and drops the oldest once eight are kept |
| AprsSession.ClearLog | App/app/aprs.c:203-209 | clearing empties the log and asks for a redraw |
| AprsSession.MoveSelection | App/app/aprs.c:185-201 | moving keeps the selection on a logged packet |
| AprsSession.MoveSelectionClamps | App/app/aprs.c:185-201 | an empty log is untouched; otherwise the selection becomes selection+delta clamped to the log, a redraw is asked only when it changes, and nothing else changes |
| AprsSession.MoveDownRepeatedly | App/app/aprs.c:185-201 | n presses of DOWN stop at the oldest packet without wrapping |
| AprsSession.MovedDown | App/app/aprs.c:185-201 | repeated moves keep the log |
| AprsSession.ToggleDetail | App/app/aprs.c:216-220 | the detail flag flips and a redraw is asked |
| AprsSession.ResetFramer | App/app/aprs.c:222-227 | the framer is out of frame, with nothing buffered and no RSSI |
| AprsSession.Enter | App/app/aprs.c:77-93 | entering twice is entering once; a first entry empties the log, resets the sequence and framer and asks for the APRS screen |
| AprsSession.Leave | App/app/aprs.c:95-105 | leaving keeps the log, stops the framer and asks for the main screen; leaving when inactive changes nothing |
| AprsSession.EnterLeaveIdempotent | App/app/aprs.c:77-105 | Enter and Leave are idempotent |
| AprsSession.ProcessKeys | App/app/aprs.c:112-152 | a held or released key changes nothing |
| AprsSession.ProcessKeysEffect | App/app/aprs.c:112-152 | EXIT leaves with the log kept, UP and DOWN step the selection within the log, MENU flips the detail view, F then 7 empties the log and consumes the F, other keys change nothing |
| AprsSession.NextSequence | App/app/aprs.c:312 | the sequence number wraps at 32 bits |
| AprsSession.Logged | App/app/aprs.c:312-315 | logging a decode outcome keeps the session consistent |
| AprsSession.CloseFrame | App/app/aprs.c:231-234 | closing a frame keeps the session consistent |
| AprsSession.HandleByte | App/app/aprs.c:229-251 | each byte keeps the frame buffer within 330 bytes and the log consistent |
| AprsSession.HandleBytes | App/app/aprs.c:229-251 | a byte stream, each byte with the RSSI reading at its arrival, keeps the session consistent |
| AprsSession.BurstBytes | App/app/aprs.c:159-163 | eight FIFO words give sixteen bytes |
| AprsSession.BurstByteOrder | App/app/aprs.c:159-163 | each word gives its low byte first, then its high byte |
| AprsSession.HandleBurst | App/app/aprs.c:154-164 | a burst of sixteen bytes, each with its own RSSI reading, keeps the session consistent and is ignored while the APRS screen is inactive |
| AprsSession.Received | App/app/aprs.c:250 | the bytes the chip sends for a body, one per body byte |
| AprsSession.HandleBytesAppend | App/app/aprs.c:229-251 | handling a+b is handling a, then b |
| AprsSession.CollectBody | App/app/aprs.c:241-250 | inside a frame, flag-free bytes are appended bit-reversed back to the body |
| AprsSession.CloseFrameLogs | App/app/aprs.c:312-315 | a frame that decodes is logged in front with the next sequence number; one that does not changes nothing |
| AprsSession.ReceiveFrame | App/app/aprs.c:229-251 | a flag, a body of 18 to 330 bytes and a flag decode and log the body and open the next frame with the RSSI read at the closing flag |
| AprsSession.OverlongFrameDropped | App/app/aprs.c:244-248 | more than 330 bytes drop the frame and leave the framer out of frame |
| AprsSession.IgnoredOutsideFrame | App/app/aprs.c:241-242 | bytes outside a frame are ignored |
| AprsSession.HandleBytesPair | App/app/aprs.c:161-162 | a word is handled as its two bytes in order |
| AprsReceiver.Receiver.ResetState | App/app/aprs.c:222-227 | the receiver performs ResetFramer in place |
| AprsReceiver.Receiver.ClearLog | App/app/aprs.c:203-209 | the receiver performs ClearLog in place |
| AprsReceiver.Receiver.ToggleDetail | App/app/aprs.c:216-220 | the receiver performs ToggleDetail in place |
| AprsReceiver.Receiver.MoveSelection | App/app/aprs.c:185-201 | the receiver performs MoveSelection in place |
| AprsReceiver.Receiver.GetPacket | App/app/aprs.c:171-178 | the ring slot read equals AprsSession.PacketAt of the model |
| AprsReceiver.Receiver.Enter | App/app/aprs.c:77-93 | the receiver performs Enter in place |
| AprsReceiver.Receiver.Leave | App/app/aprs.c:95-105 | the receiver performs Leave in place |
| AprsReceiver.Receiver.ProcessKeys | App/app/aprs.c:112-152 | the receiver performs ProcessKeys in place |
| AprsReceiver.Receiver.StorePacket | App/app/aprs.c:399-409 | the ring array and indices perform Store |
| AprsReceiver.Receiver.LogPacket | App/app/aprs.c:312-315 | the sequence counter and ring perform Logged |
| AprsReceiver.Receiver.CloseFrame | App/app/aprs.c:231-234 | decoding the frame array and logging perform CloseFrame |
| AprsReceiver.Receiver.HandleByte | App/app/aprs.c:229-251 | the frame array, its length and the log perform HandleByte |
| AprsReceiver.Receiver.HandleFskBurst | App/app/aprs.c:154-164 | the loop over eight FIFO words, reading the RSSI per byte, performs HandleBurst |
| AprsView.ListStart | App/ui/aprs.c:67-74 | the first listed row keeps the selection in view, shows three rows when there are three, and starts at 0 for short logs |
| AprsView.Listed | App/ui/aprs.c:76-83 | the listed indices are consecutive from the start, below the count, at most three |
| AprsView.SelectionIsListed | App/ui/aprs.c:64-100 | the selected packet is always among the listed rows, and every listed row has a packet |
| AprsView.PathLine | App/ui/aprs.c:92 | the path line is "via " and at most 24 characters of the path |
| AprsView.ListRow | App/ui/aprs.c:85-98 | a row prints a marked header on line 4+2r and at most one more line below it |
| AprsView.ListLines | App/ui/aprs.c:76-99 | n rows print n to 2n lines, starting on line 4 with the marker |
| AprsView.RowAt | App/ui/aprs.c:81-98 | the row for the r-th listed packet prints its header on line 4+2r |
| AprsView.ListRowStep | App/ui/aprs.c:77-98 | one loop step stops at the end of the listed rows, otherwise it prints the next row |
| AprsView.DisplayList | App/ui/aprs.c:64-100 | the list loop prints the rows of all listed packets |
| AprsView.DetailLines | App/ui/aprs.c:102-133 | the detail view prints the header on line 4 and path or RSSI on line 5 |
| AprsView.Numbered | App/ui/aprs.c:127 | snippets go on consecutive lines |
| AprsView.Screen | App/ui/aprs.c:38-62 | the waiting message exactly for an empty log, and the selected packet's detail in detail view |
| AprsView.Digits | App/ui/aprs.c:112 | decimal digits of a number |
| AprsView.Decimal | App/ui/aprs.c:112 | a signed number prints as at least one character |
| AprsView.DigitsRoundTrip | App/ui/aprs.c:112 | the printed digits read back as the number |
| AprsView.SnippetLength | App/ui/aprs.c:121-124 | a snippet stops at the first newline or after 21 characters |
| AprsView.Consumed | App/ui/aprs.c:129-131 | each snippet step advances the text by at least one character |
| AprsView.Snippets | App/ui/aprs.c:116-132 | at most four snippets, each at most 21 characters without newline |
| AprsView.WithoutNewlinesAppend | App/ui/aprs.c:116-132 | removing newlines distributes over concatenation |
| AprsView.NoNewlineKept | App/ui/aprs.c:121 | text without newlines is unchanged by their removal |
| AprsView.ConsumedPiece | App/ui/aprs.c:121-131 | the text consumed by a step is its snippet once the newline is dropped |
| AprsView.SnippetsCoverText | App/ui/aprs.c:116-132 | with enough lines, the snippets together are the whole text with newlines removed |
| AprsView.SnippetsPrefix | App/ui/aprs.c:118 | with fewer lines the snippets are a prefix of those with more |
| AprsView.PlainTextSnippets | App/ui/aprs.c:121 | text without newlines is cut into full 21-character snippets but the last |
| AprsView.SnippetEnd | App/ui/aprs.c:121-124 | the inner loop finds the snippet's length |
| AprsView.SnippetStep | App/ui/aprs.c:118-131 | one outer step prints one snippet and continues after it and its newline |
| AprsView.InfoSnippets | App/ui/aprs.c:116-132 | the snippet loop prints exactly AprsView.Snippets of the info text on lines 6 to 9 |
| HostSerial.Obfuscate | App/app/uart.c:123-126 | obfuscation keeps the length |
| HostSerial.ObfuscateTwice | App/app/uart.c:501-506 | XOR with the key is its own inverse: obfuscating twice gives the data back |
| HostSerial.ObfuscateAppend | App/app/uart.c:501-506 | the key position continues across appended data |
| HostSerial.ObfuscateAt | App/app/uart.c:165-171 | the loop obfuscates the range in place and leaves the rest |
| HostSerial.Field16 | App/app/uart.c:453 | a little-endian 16-bit field |
| HostSerial.Field16RoundTrip | App/app/uart.c:453 | a 16-bit size written little-endian reads back |
| HostSerial.Bytes16RoundTrip | App/app/uart.c:508 | the CRC bytes read back as the CRC |
| HostSerial.Frame | App/app/uart.c:173-189 | a frame is six bytes longer than its payload |
| HostSerial.CommandFrame | App/app/uart.c:452-510 | a command frame is eight bytes longer than its body |
| HostSerial.ReplyFrame | App/app/uart.c:149-194 | a reply frame is eight bytes longer than its body |
| HostSerial.ReplyIsCommandFrame | App/app/uart.c:173-189 | a reply is framed like a command whose CRC bytes are 0xFFFF |
| HostSerial.SentReply | App/app/uart.c:149-234 | the virtual port drops replies over 144 bytes; every other reply is sent as its frame |
| HostSerial.SendReply | App/app/uart.c:196-234 | the serial port obfuscates the reply buffer in place, the virtual port leaves it, and the bytes sent are the reply frame |
| HostSerial.CopyInto | App/app/uart.c:173-189 | the body is copied into the frame buffer |
| HostSerial.Framed | App/app/uart.c:173-189 | header, size, body and footer make the reply frame |
| HostSerial.Ahead | App/app/uart.c:45 | DMA_INDEX stays within the ring |
| HostSerial.Pending | App/app/uart.c:438-441 | the bytes pending before the DMA pointer, zero exactly at it |
| HostSerial.PendingStep | App/app/uart.c:433 | one step forward leaves one byte fewer pending |
| HostSerial.FindHeader | App/app/uart.c:427-450 | the header search ends on a ring index |
| HostSerial.Circular | App/app/uart.c:473-480 | count bytes read round the ring |
| HostSerial.ZeroCircular | App/app/uart.c:482-489 | zeroing keeps the ring's size |
| HostSerial.PendingAdvance | App/app/uart.c:427-450 | k steps forward leave k fewer bytes pending |
| HostSerial.FindHeaderSound | App/app/uart.c:427-450 | the search skips no AB CD header, finds one only with 8 or more bytes pending, and otherwise stops at the DMA pointer or at an AB too close to it |
| HostSerial.ScanStaysBehind | App/app/uart.c:392-511 | the read pointer never passes the DMA pointer |
| HostSerial.CommandFrameHeader | App/app/uart.c:427-453 | a complete command frame in the ring is found at its start and its size is read |
| HostSerial.CommandFrameFront | App/app/uart.c:452-453 | a command frame starts AB CD and the size low byte first |
| HostSerial.CommandFrameFooter | App/app/uart.c:464-471 | the footer DC BA is where the scanner looks, and the frame ends there |
| HostSerial.CommandFrameMiddle | App/app/uart.c:501-508 | between header and footer lie the obfuscated body and CRC |
| HostSerial.CommandFramePayload | App/app/uart.c:473-480 | the bytes the scanner copies are the obfuscated body and CRC |
| HostSerial.Scan | App/app/uart.c:392-511 | UART_IsCommandAvailable as a function: no header found leaves the pointer where the search stopped, else TakeFrame; FindHeaderSound and ScanCommandFrame state what it does |
| HostSerial.TakeFrame | App/app/uart.c:452-462 | from a header: an oversized frame drops all pending input, an incomplete one waits, a complete one goes to Complete |
| HostSerial.Complete | App/app/uart.c:464-471 | a wrong footer drops all pending input, a right one goes to Accepted |
| HostSerial.Accepted | App/app/uart.c:473-511 | the payload de-obfuscated, the frame zeroed in the ring, the pointer past the footer, and the CRC comparison as the verdict |
| HostSerial.ScanCommandFrame | App/app/uart.c:392-511 | a command frame in the ring is taken whole: the read pointer moves to its end, its bytes are zeroed, the command holds body and CRC, and it is accepted exactly when its CRC matches |
| HostSerial.CommandFrameComplete | App/app/uart.c:464-471 | the footer of a whole command frame is where the scanner looks, so the frame is accepted |
| HostSerial.CommandFrameAccepted | App/app/uart.c:473-511 | accepting a command frame yields its body and CRC in the clear and moves the pointer just behind it |
| HostSerial.RingSizedFrameWaits | App/app/uart.c:455-462 | a frame as long as the ring is neither rejected nor taken: the scanner waits at its header |
| HostSerial.AheadConsumed | App/app/uart.c:464-482 | header, size, body, CRC and footer steps add up to the frame length |
| HostSerial.CopyRange | App/app/uart.c:473-480 | memcpy copies the range and changes nothing else |
| HostSerial.ZeroRange | App/app/uart.c:482-489 | memset zeroes the range and changes nothing else |
| HostSerial.SerialPort.SeekHeader | App/app/uart.c:427-450 | the loop moves the read pointer where FindHeader says and reports whether a header was found |
| HostSerial.SerialPort.CopyFrame | App/app/uart.c:473-480 | the one or two memcpy calls copy the frame round the ring |
| HostSerial.SerialPort.ZeroFrame | App/app/uart.c:482-489 | the one or two memset calls zero the consumed bytes round the ring |
| HostSerial.SerialPort.IsCommandAvailable | App/app/uart.c:392-511 | the ring, read pointer, command buffer and verdict after UART_IsCommandAvailable equal HostSerial.Scan |
| HostSerial.SerialPort.TakeFrameAt | App/app/uart.c:452-511 | from a found header, the size checks and the rest of the call equal HostSerial.TakeFrame |
| HostSerial.SerialPort.CompleteFrame | App/app/uart.c:461-511 | the footer check and the rest of the call equal HostSerial.Complete |
| HostSerial.SerialPort.AcceptFrame | App/app/uart.c:473-511 | the copy, zeroing, de-obfuscation and CRC check equal HostSerial.Accepted |
| HostCommands.Field32 | App/app/uart.c:303 | a 32-bit timestamp field |
| HostCommands.ReplyHeader | App/app/uart.c:240-241 | a reply header holds its id and size |
| HostCommands.VersionReply | App/app/uart.c:236-251 | the version reply is 40 bytes with id 0x0515 and a size that describes it |
| HostCommands.ReadReply | App/app/uart.c:310-324 | the read reply has id 0x051C and is Size+8 bytes, with a matching size field |
| HostCommands.ReadData | App/app/uart.c:316-322 | a locked radio reads zeros; an unlocked one reads the EEPROM at the offset |
| HostCommands.WriteReply | App/app/uart.c:360-362 | the write reply has id 0x051E and echoes the offset |
| HostCommands.BlockOffset | App/app/uart.c:371 | block offsets are 16-bit |
| HostCommands.Block | App/app/uart.c:379 | each block is 8 bytes |
| HostCommands.Writes | App/app/uart.c:369-381 | no more writes than blocks |
| HostCommands.SessionStep | App/app/uart.c:256-278 | CMD_0514: the command's timestamp becomes the session, the countdowns restart, the backlight goes off, the version is the reply |
| HostCommands.ReadStep | App/app/uart.c:281-325 | CMD_051B: nothing outside the session, else the countdowns restart and the read reply goes out |
| HostCommands.WriteStep | App/app/uart.c:328-388 | CMD_051D: nothing outside the session, else the countdowns restart, the blocks are written and the settings reloaded unless locked, and the write reply goes out |
| HostCommands.Dispatch | App/app/uart.c:531-556 | the switch on the command id: 0x0514, 0x051B and 0x051D to their handlers, 0x05DD resets, every other id does nothing |
| HostCommands.Handle | App/app/uart.c:513-559 | UART_HandleCommand: the switch, then the screenshot lock, except after a reset request, which never returns |
| HostCommands.WritesExactly | App/app/uart.c:369-381 | a block is written exactly when its offset is allowed, and each write carries its block's bytes |
| HostCommands.PasswordKept | App/app/uart.c:377 | on the lock screen without permission nothing is written into the password range 0x0E98-0x0E9F |
| HostCommands.ReloadExactly | App/app/uart.c:373-375 | the settings are reloaded exactly when a block in 0x0F30-0x0F3F is written on an unlocked radio |
| HostCommands.StaleRequestIgnored | App/app/uart.c:303-304 | any read or write with a wrong session timestamp, of any size, does nothing and sends nothing |
| HostCommands.SessionAdmits | App/app/uart.c:303-306 | after a session opens with any timestamp, requests carrying it are answered and restart the 6-second countdown |
| HostCommands.OnlySessionSetsTimestamp | App/app/uart.c:256-278 | only the session-open command changes the timestamp, to whichever one it carries; only 0x05DD asks for a reset, and every other command sets the screenshot lock |
| HostCommands.LockedRadioSealed | App/app/uart.c:316-385 | a locked radio writes nothing, never reloads, and reads zeros, for every command and size |
| HostCommands.ReloadOnlyForSettings | App/app/uart.c:351-385 | a reload happens only for a valid write on an unlocked radio touching the settings blocks |
| HostCommands.RepliesDescribed | App/app/uart.c:236-388 | every reply's size field describes its length |
| HostCommands.UsbDropsLongReads | App/app/uart.c:154-157 | on the virtual port a read of more than 136 bytes sends nothing, while version and write replies always go |
| HostCommands.WriteBlocks | App/app/uart.c:369-381 | the block loop returns HostCommands.Writes and HostCommands.Reload |
| HostCommands.CommandHandler.HandleCommand | App/app/uart.c:513-559 | the timestamp, countdowns and outcome after UART_HandleCommand equal HostCommands.Handle |
| HostCommands.CommandHandler.Switch | App/app/uart.c:513-559 | the switch on the command id equals HostCommands.Dispatch |
| HostCommands.CommandHandler.OpenSession | App/app/uart.c:256-278 | CMD_0514 sets the timestamp and countdowns and replies with the version |
| HostCommands.CommandHandler.ReadEeprom | App/app/uart.c:281-325 | CMD_051B equals HostCommands.ReadStep |
| HostCommands.CommandHandler.WriteEeprom | App/app/uart.c:328-388 | CMD_051D equals HostCommands.WriteStep |
| Action.Increment | App/app/action.c:96 | an 8-bit increment |
| Action.Not | App/app/action.c:348 | C logical not gives 0 or 1 |
| Action.NextPower | App/app/action.c:94-102 | the power level steps up and wraps from HIGH to LOW1 |
| Action.NextModulation | App/app/action.c:191-199 | the modulation steps up and wraps from the last to FM |
| Action.PowerSteps | App/app/action.c:94-102 | k presses from LOW1 give LOW1+k |
| Action.PowerCycle | App/app/action.c:94-102 | pressing once per level returns to LOW1 |
| Action.ModulationSteps | App/app/action.c:191-199 | the modulations cycle through all values back to FM |
| Action.Selected | App/app/action.c:247-267 | which binding a key event runs; SelectionTable and RunsIffHeldOrShort state it |
| Action.SelectionTable | App/app/action.c:229-267 | press: nothing; held: the long action with a beep; release after hold: nothing; release after a short press: the short action with a beep |
| Action.RunsIffHeldOrShort | App/app/action.c:247-267 | an action runs exactly when the key is held or released after a short press, exactly when a beep is asked |
| Action.Handled | App/app/action.c:201-227 | ACTION_Handle's effect on the radio; DtmfDeleteKey states the DTMF branch |
| Action.DtmfDeleteKey | App/app/action.c:203-227 | with the DTMF box open only SIDE1 pressed deletes the last code, closing the box when it is empty; nothing else changes |
| Action.Powered | App/app/action.c:94-102 | ACTION_Power: the next power level, the channel saved, the screen requested; PowerSteps and PowerCycle state the cycle |
| Action.Demodulated | App/app/action.c:191-199 | ACTION_SwitchDemodul: the next modulation and the channel saved; ModulationSteps states the cycle |
| Action.VoxToggled | App/app/action.c:346-352 | ACTION_Vox: VOX flipped, settings saved, VFOs reconfigured; VoxTwice states the involution |
| Action.Updated | App/app/action.c:354-359 | ACTION_Update: the receive-mode save cleared and a reconfigure and status redraw requested |
| Action.RxModeStep | App/app/action.c:361-377 | ACTION_RxMode: alternately toggles dual watch and cross band; RxModeFour and RxModeForgetsChannel state the cycle |
| Action.MainOnlyStep | App/app/action.c:379-402 | ACTION_MainOnly: saves and clears dual watch and cross band, then restores them; MainOnlyTwice states it |
| Action.VoxTwice | App/app/action.c:346-352 | toggling VOX twice restores the settings |
| Action.MainOnlyTwice | App/app/action.c:379-402 | main-only turns dual watch and cross band off, and a second call restores them |
| Action.RxModeFour | App/app/action.c:361-377 | four receive-mode steps restore the settings and the cycle |
| Action.RxModeForgetsChannel | App/app/action.c:363-366 | a dual-watch value 2 comes back as 1 |
| Action.Actions.Handle | App/app/action.c:201-267 | the state and the action id after ACTION_Handle equal Action.Handled and Action.HandledAction |
| Action.Actions.Power | App/app/action.c:94-102 | ACTION_Power performs Powered |
| Action.Actions.SwitchDemodul | App/app/action.c:191-199 | ACTION_SwitchDemodul performs Demodulated |
| Action.Actions.Vox | App/app/action.c:346-352 | ACTION_Vox performs VoxToggled |
| Action.Actions.Update | App/app/action.c:354-359 | ACTION_Update performs Updated |
| Action.Actions.RxMode | App/app/action.c:361-377 | ACTION_RxMode performs RxModeStep |
| Action.Actions.MainOnly | App/app/action.c:379-402 | ACTION_MainOnly performs MainOnlyStep |
| BadApple.RunsOf | App/app/bad_apple.c:45-60 | the pixels the first k count/colour pairs expand to; RunsOfExtend and RunsOfPrefix state how it grows |
| BadApple.Expand | App/app/bad_apple.c:38-61 | the pixels of a whole frame's pairs; EncodeThenDecode states that it inverts Compress |
| BadApple.Run | tools/badapple/process_badapple.py:146 | a run is count pixels of one colour |
| BadApple.RunsOfExtend | App/app/bad_apple.c:45-48 | bytes after the pairs read do not change their runs |
| BadApple.RunsOfPrefix | App/app/bad_apple.c:45-60 | fewer pairs give a prefix of the runs |
| BadApple.EmptyPair | App/app/bad_apple.c:50 | a zero-count pair adds no pixels |
| BadApple.PixelValues | tools/badapple/process_badapple.py:126-129 | each pixel is 1 exactly when the image value is non-zero, else 0 |
| BadApple.Compress | tools/badapple/process_badapple.py:132-151 | the output is count/colour pairs with counts 1 to 255, no two runs of one colour joinable, expanding back to the pixels; empty exactly for an empty image |
| BadApple.Emit | tools/badapple/process_badapple.py:146-150 | emitting a pair appends its run and keeps the output maximal |
| BadApple.Offsets | tools/badapple/process_badapple.py:159-164 | one offset per frame |
| BadApple.FrameOffsets | tools/badapple/process_badapple.py:159-164 | the loop computes the offsets and the total size |
| BadApple.Concat | tools/badapple/process_badapple.py:159-164 | the frames laid out one after the other: its length is the sum of theirs |
| BadApple.OffsetsRecurrence | tools/badapple/process_badapple.py:162-164 | the first offset is 0 and each next one adds the previous frame's length |
| BadApple.ConcatSplit | tools/badapple/process_badapple.py:159-164 | the data splits at a frame boundary |
| BadApple.OffsetsMonotone | tools/badapple/process_badapple.py:159-164 | the offsets never decrease and stay within the data |
| BadApple.FrameSize | App/app/bad_apple.c:72-76 | a frame ends within the data |
| BadApple.FrameBytesRoundTrip | App/app/bad_apple.c:72-78 | the bytes the player slices for frame f are the f-th compressed frame |
| BadApple.Cell | App/app/bad_apple.c:54-56 | each pixel has its own page, column and bit in the frame buffer |
| BadApple.SetBit | App/app/bad_apple.c:56 | setting a bit lights exactly that bit |
| BadApple.SetPixel | App/app/bad_apple.c:54-56 | lighting a pixel leaves every other pixel as it was |
| BadApple.DecodeFrame | App/app/bad_apple.c:38-61 | after decoding, a pixel is lit exactly when the data's runs light it |
| BadApple.Play | App/app/bad_apple.c:63-82 | playback stops at the first exit request or after the last frame, and the screen shows the last frame played |
| BadApple.EncodeThenDecode | App/app/bad_apple.c:38-61 | decoding a compressed image lights exactly its non-zero pixels |
| BadApple.DarkRuns | App/app/bad_apple.c:45-60 | k pairs of 255 dark pixels are a dark run of 255k pixels |
| BadApple.Fixture | App/app/bad_apple_frames.h:6-22 | the shipped sample is one frame of 34 bytes: dark runs over the first 4112 pixels, so no pixel is lit |
| Conditionals.Decide | scripts/refactor_conditionals.py:76-116 | the outer loop's evaluation of a line; IfDefinedDecision and UnknownFeatureDropsBothWays state it |
| Conditionals.PassFrom | scripts/refactor_conditionals.py:66-158 | a pass from line i on; PassCopies and PassResolves state its two steps |
| Conditionals.Resolve | scripts/refactor_conditionals.py:60-160 | one whole pass; Pass computes it and ConditionalResolved, NestedKept and PrefixKept state what it does |
| Conditionals.Collect | scripts/refactor_conditionals.py:126-152 | block collection ends within the file |
| Conditionals.EmbedsTrans | scripts/refactor_conditionals.py:59-163 | keeping lines in order composes across passes |
| Conditionals.EmbedsShorter | scripts/refactor_conditionals.py:59-163 | a subsequence is no longer than the file |
| Conditionals.Pass | scripts/refactor_conditionals.py:60-160 | one pass computes the specified resolution, reports a change exactly when an evaluable directive exists, keeps the result a subsequence of the input and shortens the file when it changes |
| Conditionals.PassLine | scripts/refactor_conditionals.py:66-158 | one outer step advances and keeps the pass invariant |
| Conditionals.PassCopies | scripts/refactor_conditionals.py:69-116 | a line that is not an evaluable directive is copied |
| Conditionals.PassResolves | scripts/refactor_conditionals.py:118-158 | an evaluable directive is replaced by the chosen branch |
| Conditionals.Append | scripts/refactor_conditionals.py:155-158 | extending the result keeps it a subsequence |
| Conditionals.CollectBlock | scripts/refactor_conditionals.py:118-152 | the collection loop computes the specified blocks, each taken in order from the lines it consumed |
| Conditionals.ProcessFile | scripts/refactor_conditionals.py:46-175 | at most ten passes; fewer only when the file no longer changes; the result is a subsequence of the input and lines_removed is the drop in the newline count of the joined text |
| Conditionals.JoinNewlines | scripts/refactor_conditionals.py:61-166 | the joined text of split lines holds one newline fewer than it has lines, and none for no lines |
| Conditionals.LinesRemovedCount | scripts/refactor_conditionals.py:166 | lines_removed is the number of lines removed, except that a file emptied entirely counts one fewer |
| Conditionals.PrefixKept | scripts/refactor_conditionals.py:66-116 | lines before the first evaluable directive are kept |
| Conditionals.NothingToResolve | scripts/refactor_conditionals.py:162-163 | a file without evaluable directives is a fixed point |
| Conditionals.HeaderGuardKept | scripts/refactor_conditionals.py:69-73 | a header guard is kept in place |
| Conditionals.CollectFlat | scripts/refactor_conditionals.py:146-150 | lines without directives go to the branch being collected |
| Conditionals.CollectConditional | scripts/refactor_conditionals.py:126-152 | for if/then/else/endif and if/then/endif the then and else blocks (empty without #else) are collected and the endif consumed |
| Conditionals.CollectElse | scripts/refactor_conditionals.py:144-150 | after #else the lines go to the else block |
| Conditionals.ConditionalResolved | scripts/refactor_conditionals.py:118-158 | a flat conditional, with or without #else, becomes the branch its decision selects, the else branch being empty without #else |
| Conditionals.NestedThen | scripts/refactor_conditionals.py:130-135 | an inner #if is kept inside the outer block and deepens the nesting |
| Conditionals.NestedElse | scripts/refactor_conditionals.py:136-143 | the inner #endif is kept and the outer one closes the block |
| Conditionals.NestedKept | scripts/refactor_conditionals.py:118-158 | a nested conditional keeps the inner one whole in the chosen branch |
| Conditionals.IfdefResolved | scripts/refactor_conditionals.py:83-85 | #ifdef keeps the then branch exactly for an enabled feature; without #else the block is dropped otherwise |
| Conditionals.IfndefResolved | scripts/refactor_conditionals.py:86-88 | #ifndef keeps the then branch exactly for a disabled feature; without #else the block is dropped otherwise |
| Conditionals.IfDefinedDecision | scripts/refactor_conditionals.py:89-112 | #if defined: undecided with an unknown feature; && needs all enabled, \|\| any; a single feature decides; several without an operator stay undecided |
| Conditionals.UnresolvedKept | scripts/refactor_conditionals.py:109-112 | an #if defined with an unknown feature is copied |
| Conditionals.UnknownFeatureDropsBothWays | scripts/refactor_conditionals.py:83-88 | #ifdef and #ifndef of an unknown feature both drop the block |
| Levels.Log2 | App/ui/main.c:118-124 | the floor of log2, 0 for 0 and 1; Log2Bounds and Log2Approx state it |
| Levels.Pow2 | App/ui/main.c:118-124 | powers of two are positive |
| Levels.Log2Bounds | App/ui/main.c:118-124 | 2^log2(v) <= v < 2^(log2(v)+1) |
| Levels.Log2Monotone | App/ui/main.c:118-124 | log2 never decreases |
| Levels.Log2Approx | App/ui/main.c:118-124 | the shift loop returns 0 for 0 and the floor of log2 otherwise |
| Levels.LogLevel | App/ui/main.c:159-160 | the table index is within the 16-entry table |
| Levels.LogArgument | App/ui/main.c:160 | the capped argument has a log below 16 |
| Levels.Log2Top | App/ui/main.c:160 | the cap 32768 maps to index 15 |
| Levels.AudioBars | App/ui/main.c:152-161 | at most 25 bars |
| Levels.SilenceBelowThreshold | App/ui/main.c:149-161 | no bars exactly up to the threshold 18 |
| Levels.AudioBarsMonotone | App/ui/main.c:152-161 | a louder voice never shows fewer bars |
| Levels.AudioBarsSaturate | App/ui/main.c:152-161 | at the cap all 25 bars show |
| Levels.Smoothed | App/ui/main.c:162 | the bar jumps up at once and falls by at most one per update |
| Levels.Decay | App/ui/main.c:162 | after k updates the bar has fallen by k or reached the level |
| Levels.AudioBar.Display | App/ui/main.c:126-172 | when shown, barsOld becomes the smoothed level and is drawn; otherwise nothing changes |
| Levels.DrawLevelBar | App/ui/main.c:87-115 | min(level, bars) segments, solid except the last four positions of the scale, in both the plain and the graded style |
| Levels.RssiMagnitude | App/ui/main.c:228-235 | the band-corrected RSSI magnitude clamped to 53..141; RssiClamp states it |
| Levels.RssiClamp | App/ui/main.c:228-235 | the corrected magnitude is clamped to 53..141, unchanged within, and a stronger signal never has a larger magnitude |
| Levels.AntennaBarRows | App/ui/main.c:81-83 | bar i lights rows 6-i to 6 |
| Levels.DrawSmallAntennaAndBars | App/ui/main.c:75-85 | up to six bar columns, bar i lighting rows 6-i to 6 |
| Levels.TxLevel | App/ui/main.c:676-705 | the transmit level drawn: the power setting minus one as an int8_t; TxLevelInRange states its range |
| Levels.TxLevelInRange | App/ui/main.c:676-705 | power levels 1..7 draw level power-1 within the six bars; power 0 draws nothing |

## Left out

- Radio hardware is passed in as parameters: the RSSI (`BK4819_GetRSSI_dBm`, one reading per received byte, used only at a flag), the FSK FIFO words (`BK4819_ReadRegister`), the voice amplitude, the EEPROM contents (a function from offset to byte) and the UART's `CRC_Calculate`. That CRC lives in a driver that is not part of this model.
- Interrupts and DMA timing: each call is atomic, and the DMA write position is an argument.
- Drawing primitives, blitting and delays are not modelled. What they would show is returned as values: printed lines, bar segments and frame-buffer bits. The EEPROM writes, `SETTINGS_InitEEPROM`, `NVIC_SystemReset` and turning the backlight off are returned as an outcome (writes and flags) rather than performed.
- The action table `action_opt_table` and the actions other than power, modulation, VOX, update, receive mode and main-only are not modelled. `Action.Actions.Handle` returns the selected action id instead of calling it.
- `map()` and the S-meter text of `DisplayRSSIBar` are not modelled; only its clamp is.
- `App/main.c` and the rest of the firmware are not part of this model.
- `process_badapple.py`'s video extraction, image loading, header writing and floating-point frame rate are not modelled. The encoder takes the already-thresholded pixel values.
- `refactor_conditionals.py` matches lines with regular expressions. The model classifies each line by a `Kind` datatype that stands for those matches. Reading and writing files and the command-line driver are not modelled.
- `BadApple.Play`: `BAD_APPLE_ShouldExit` (PTT and keyboard polling) is a function parameter indexed by frame.
- The enum values `OUTPUT_POWER_LOW1` = 1, `OUTPUT_POWER_HIGH` = 7 and `MODULATION_UKNOWN` = 3 come from headers that are not part of this model, so they are stated as constants.
- Action.RxModeFour: stated for 0/1 setting values only. For a dual-watch value of 2 the source's `!` turns it into 0 and then 1, which `Action.RxModeForgetsChannel` shows.
- Levels.Decay: states the falling case only. A rising level is covered by `Levels.Smoothed`, where the bar takes the new value at once.
- HostCommands.CommandHandler.HandleCommand: requires `CommandInside`. A write request in the port's session on an unlocked radio must have its blocks inside the 256-byte command buffer, that is a size below 248. For larger sizes the source's block loop reads memory past the buffer, which the model does not have. Every other command is handled: stale and locked writes of any size, and session-opens with any timestamp.
- HostCommands.CommandHandler.Switch: the same requirement as HandleCommand.
- HostCommands.CommandHandler.WriteEeprom: requires `BlockLoopInside`, the same bound for in-session writes on an unlocked radio only.
- HostCommands.SessionAdmits: the request after the session-open carries the same bound.
- HostSerial.SerialPort.Valid: the ring holds at most 262 bytes (`MaxRing`), so every frame that passes the size check fits the 256-byte command buffer. The sizes of `UART_DMA_Buffer` and `VCP_RxBuf` are declared in drivers that are not part of this model; with a larger ring the source's copy would overrun the command buffer.
- Display.NextDisplay: `DTMF_clear_input_box` is modelled as closing the DTMF input box and setting its index to 0. The characters of the box are not modelled: App/app/dtmf.c, which defines that call, is not part of this model.
- Display.Gui.SelectNextDisplay: the same as NextDisplay.
- HostCommands.ReadReply: for a read size over 128 the source overruns its reply buffer. The model returns EEPROM bytes for the whole size.
- HostSerial.Ahead: `DMA_INDEX` is modelled as one subtraction of the ring size. This is exact, because every call in the source steps by at most the ring size.
- AprsReceiver.Receiver.MoveSelection: requires the delta in the `int8_t` range of the source's parameter.
- Aprs.DecodeAcceptance: the `length < 3` check in `APRS_DecodeFrame` is never reached after the 18-byte minimum, so it does not appear in the statement.
- The countdowns the serial commands restart (FM radio, serial configuration, screenshot lock) are set to their values; their counting down happens elsewhere in the firmware and is not modelled.
