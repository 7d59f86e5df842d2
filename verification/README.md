# A verified model of the board's communication code

The robot's firmware talks to the world through a handful of algorithms in the Arduino core, mbed and the
WiFiNINA library: a checksum engine, a streaming text search, IP address texts, a USB serial port, number
printing and reading, and three framing layers. This project models them in Dafny and proves what they are for.

| files | what they model |
|---|---|
| `Gf2`, `Register`, `MbedCrc` | the three software ways of computing one checksum, and polynomial division over GF(2), which all three perform |
| `CharStream`, `StreamSearch` | `Stream::findMulti` and `findUntil`: a pattern automaton without a failure table |
| `IpText`, `IpAddress`, `IpRoundTrip`, `IpLanguage`, `IpDotted` | parsing addresses in place, canonical printing, the round trip, and the accepted languages |
| `RingBuffer`, `UsbCdc`, `UsbSerial` | the USB serial data path as a machine of atomic steps |
| `Numerals`, `Printing`, `Itoa`, `NumberReading` | five printers and one reader of integers, tied by positional value |
| `NinaSpi`, `Slip`, `PluggableUsb` | the SPI reply parser, SLIP framing (RFC 1055), and the endpoint allocator |

What the source updates in place is a class or an array here; each method is proved against a function of the
old state, and the lemmas are about those functions. `CTypes` gives the integer ranges: `long` has 32 bits,
and signed arithmetic wraps (C leaves overflow undefined). Register words are 32 explicit bits.

## Where the code and its promises differ

- `printULLNumber` writes nothing for 0; the reference form in the comment above it writes "0". In a base above
  201 the reference form and `printNumber` also end at a digit 201, whose character is the zero byte
  (`Printing.FastIsReference`).
- `fromString6` counts an empty side of "::" as a field. Against RFC 4291 section 2.2 it therefore refuses seven
  written fields all on one side of "::", and no other text of the two colon forms (`IpLanguage.RfcTexts`). It
  accepts a missing first field (":1:2:3:4:5:6:7") and fields of more than four digits when their value fits.
  `IpLanguage.AcceptedTexts` is the exact language.
- A text refused by `fromString6` leaves the fields stored so far in an object that keeps its type. An IPv4
  object can so come to hold non-zero bytes in front of its four octets, and then its printed text does not
  read back to an equal address. The round trip holds if and only if those twelve bytes are zero.
- `waitSpiChar` returns -1 on an error byte, and its caller tests for zero: the error byte acts as the start byte,
  and what follows it decides whether a failure is reported (`NinaSpi.ErrorReplyRefused`).
- `parseInt` does not read a printed number back when the ignore character is one the number is written with
  (LONG_MIN without its sign excepted).
- A refused dotted text leaves its first octets, three at most, in an object that keeps its type
  (`IpDotted.DottedAddress`).
- `USBSerial::write` returns the full count even when a disconnect has made some of its sends fail
  (`UsbSerial.WriteMiscounts`); it is right if and only if none has failed.
- The single-character `write` of the USB port returns the character's code and not 1
  (`UsbSerial.USBSerial.WriteByte`), so the count that `print` returns there is wrong for every IP address
  (`IpAddress.UsbCountsMore`) and every negative number. It is right if and only if each single-character write
  returns 1 (`IpAddress.CountIsLength`).
- On a disconnect the source aborts the IN endpoint twice, so a started OUT transfer stays started.

## Assumptions about the environment

- `char` is unsigned and has 8 bits, as on the ARM targets.
- Interrupt handlers, API calls and host events are atomic steps; locks are not modelled.
- `write_start` succeeds when nothing is in flight. `read_start` while an OUT transfer is started changes nothing.
- A packet has at most 64 bytes and answers a started OUT transfer. The configuration is selected only while
  no received byte waits. `send_nb` is called with `now` true only.
- Available, peek and read of the serial port are the only consumers of its packets.
- A device printed to takes every character: a block of characters returns its length, a single one a value of the
  device's own (`Print.single`).
- Bytes in a stream are read without timing out until it ends. An SPI line with nothing more to say reads 0xFF,
  and the caller's parameter buffers hold the reply.
- The CRC table, whose contents are not part of this model, holds at each index of 8 (or 4) bits that many
  reflected bit steps of the index; `uint_fast32_t` has 32 bits.
- `OperationList` is first in, first out: an operation added to an empty list is processed at once, and
  finished heads leave until one is not finished.

## Model

| member | source | states |
|---|---|---|
| MbedCrc.ModesAgree | arduino/mbed/drivers/include/drivers/MbedCRC.h:414-446 | Any mode over any division of a message into partial calls finishes with the checksum that any other mode gives for the whole message |
| MbedCrc.MbedCrc.Compute | arduino/mbed/drivers/include/drivers/MbedCRC.h:329-345 | The result is the remainder of message·x^width + seed·x^(8·size) by x^width + polynomial, mirrored and xored as configured |
| MbedCrc.MbedCrc.ComputeInParts | arduino/mbed/drivers/include/drivers/MbedCRC.h:347-403 | Start, one partial call per part and stop give the checksum of the concatenation |
| MbedCrc.MbedCrc.SeedView | arduino/mbed/drivers/include/drivers/MbedCRC.h:562-577 | In every mode the register starts, seen MSB first, as the low width bits of the seed at its top and zeros below |
| MbedCrc.MbedCrc.ComputePartial | arduino/mbed/drivers/include/drivers/MbedCRC.h:755-820 | The loops of all three modes absorb the bytes one after the other, as the specification function does |
| MbedCrc.MbedCrc.ComputePartialStop | arduino/mbed/drivers/include/drivers/MbedCRC.h:414-446 | The branches on mode and the reflection flags align, xor and mask the register |
| MbedCrc.MbedCrc.CrcUnique | arduino/mbed/drivers/include/drivers/MbedCRC.h:329-345 | A message has one checksum: the division has one remainder |
| MbedCrc.MbedCrc.FinishedIsCrc | arduino/mbed/drivers/include/drivers/MbedCRC.h:414-446 | The finished register is the checksum for every mode, width, seed and flag |
| MbedCrc.MbedCrc.RegisterIsRemainder | arduino/mbed/drivers/include/drivers/MbedCRC.h:678-786 | After any message the top width bits of the register, seen MSB first, are the remainder of the division |
| MbedCrc.MbedCrc.RegisterCongruent | arduino/mbed/drivers/include/drivers/MbedCRC.h:773-781 | The whole register stays congruent to the dividend modulo the generator after every byte |
| MbedCrc.MbedCrc.RegisterLowClear | arduino/mbed/drivers/include/drivers/MbedCRC.h:540-577 | The bits below the width stay clear in the MSB-first register |
| MbedCrc.MbedCrc.StepCongruent | arduino/mbed/drivers/include/drivers/MbedCRC.h:678-705 | One bit step is multiplication by x modulo the generator |
| MbedCrc.MbedCrc.MirrorStep | arduino/mbed/drivers/include/drivers/MbedCRC.h:718-745 | A reflected bit step is the exact mirror image of a normal one |
| MbedCrc.MbedCrc.MirrorSteps | arduino/mbed/drivers/include/drivers/MbedCRC.h:718-745 | The same for any number of steps |
| MbedCrc.MbedCrc.TableStep | arduino/mbed/drivers/include/drivers/MbedCRC.h:805-817 | One look-up and one shift stand for n reflected bit steps |
| MbedCrc.MbedCrc.TableByte | arduino/mbed/drivers/include/drivers/MbedCRC.h:814-816 | The 256-entry form of a byte equals its eight bit steps |
| MbedCrc.MbedCrc.TableNibbles | arduino/mbed/drivers/include/drivers/MbedCRC.h:810-813 | The 16-entry form of a byte equals its eight bit steps |
| MbedCrc.MbedCrc.TableEntryFits | arduino/mbed/drivers/include/drivers/MbedCRC.h:551-555 | A table entry needs no more bits than the width, so it fits the table's 8-, 16- or 32-bit element type |
| MbedCrc.MbedCrc.AbsorbByteView | arduino/mbed/drivers/include/drivers/MbedCRC.h:755-820 | One byte drives the MSB-first view of the register the same way in every mode |
| MbedCrc.MbedCrc.AbsorbConcat | arduino/mbed/drivers/include/drivers/MbedCRC.h:755-820 | Absorbing a concatenation is absorbing its parts in turn |
| Gf2.RemainderUnique | arduino/mbed/drivers/include/drivers/MbedCRC.h:766-769 | Modulo-2 division has at most one remainder below the generator's degree |
| StreamSearch.MultiTarget.Advance | arduino/api/Stream.cpp:272-316 | After each character the index is the length of the longest prefix of the target that ends the text consumed; the target is complete exactly when that is all of it |
| StreamSearch.Continues | arduino/api/Stream.cpp:273-278 | A matching character extends the longest overlap by one |
| StreamSearch.Breaks | arduino/api/Stream.cpp:280-289 | A mismatch rules out every overlap longer than the index |
| StreamSearch.Tries | arduino/api/Stream.cpp:288-316 | Stepping the index down finds the longest overlap or rules the tried one out |
| StreamSearch.OverlapsWithin | arduino/api/Stream.cpp:300-313 | A shorter overlap can be told from the target alone, by comparing it with its own shifted copy |
| StreamSearch.FeedAll | arduino/api/Stream.cpp:271-317 | One character for all targets: the lowest-numbered completed target, or none and all indices again longest overlaps |
| StreamSearch.ReadUntilComplete | arduino/api/Stream.cpp:266-318 | Stops at the first position where any target's occurrence ends, the rest of the stream unread, or finds none in the whole stream |
| StreamSearch.FindMulti | arduino/api/Stream.cpp:258-321 | The same for any targets starting at index 0; an empty target is found at once with nothing read |
| StreamSearch.FindUntil | arduino/api/Stream.cpp:116-125 | True if and only if the target first ends no later than the terminator does; the rest of the stream starts right behind the first end of either, or nothing is left |
| StreamSearch.UntilMeaning | arduino/api/Stream.cpp:116-125 | The search answers 0 if and only if the target ends no later than the terminator |
| StreamSearch.UntilLeaves | arduino/api/Stream.cpp:116-125 | What a search leaves unread, for any result of it |
| CharStream.Stream.TimedRead | arduino/api/Stream.cpp:33-42 | Takes the next character, or -1 at the end |
| IpRoundTrip.RoundTrip | arduino/api/IPAddress.cpp:92-327 | What printTo writes is accepted with the same type; the address read equals the one printed if and only if it is IPv6 or its first twelve bytes are zero |
| IpRoundTrip.ReadsBack6 | arduino/api/IPAddress.cpp:151-217 | Every IPv6 text reads back to exactly its sixteen bytes, whatever the object held |
| IpRoundTrip.ReadsBack4 | arduino/api/IPAddress.cpp:99-149 | Every dotted text reads back to its four octets behind twelve zero bytes |
| IpRoundTrip.ElidedReadsBack | arduino/api/IPAddress.cpp:264-317 | Eliding any run of two or more zero fields loses nothing |
| IpRoundTrip.PlainReadsBack | arduino/api/IPAddress.cpp:264-317 | Eight printed fields read back |
| IpRoundTrip.FormatIsElidedForm | arduino/api/IPAddress.cpp:290-315 | The printing loop writes the fields left of the run, "::", and the fields right of it |
| IpRoundTrip.RefusedTextLeavesBytes | arduino/api/IPAddress.cpp:186-199 | Two to seven fields without "::" are refused, and all but the last stay in the object |
| IpRoundTrip.RefusedTextBreaksRoundTrip | arduino/api/IPAddress.cpp:92-97 | After such a refusal with a non-zero first field an IPv4 object no longer reads back from its own text |
| IpRoundTrip.TextUnique | arduino/api/IPAddress.cpp:269-289 | An address has one canonical text |
| IpAddress.IPAddress.FromOctets | arduino/api/IPAddress.cpp:33-41 | An address made from octets has twelve zero bytes in front of them, as the round trip needs |
| IpLanguage.AcceptedTexts | arduino/api/IPAddress.cpp:151-217 | fromString6 accepts a text if and only if, a missing first field shown as 0, it is eight fields or fields around one "::" with at most seven stored |
| IpLanguage.CaseFree | arduino/api/IPAddress.cpp:157-163 | Texts that differ in the case of the letters A to F only leave the same address with the same result |
| IpLanguage.CaseFree6 | arduino/api/IPAddress.cpp:157-163 | The same at any point of the colon scan |
| IpLanguage.HexDigits | arduino/api/IPAddress.cpp:157-158 | The hexadecimal digits are 0 to 9, a to f and A to F, and nothing else |
| IpLanguage.PrintedForm | arduino/api/IPAddress.cpp:268-317 | An IPv6 text has shortest lower-case fields (RFC 5952 sections 4.1 and 4.3), with "::" for two or more of them exactly if two neighbouring fields are zero |
| IpDotted.DottedTexts | arduino/api/IPAddress.cpp:99-147 | A text is accepted as dotted decimal if and only if it is four numbers up to 255, leading zeros allowed, with dots between them |
| IpDotted.DottedAddress | arduino/api/IPAddress.cpp:92-147 | Such a text gives the four octets behind twelve zero bytes; any other number of octets is refused by both parsers and leaves the first ones, three at most |
| IpDotted.ReadDotted | arduino/api/IPAddress.cpp:107-145 | The dotted scan of any number of octets, from any number already stored |
| IpDotted.CutDotted | arduino/api/IPAddress.cpp:107-145 | What the dotted scan accepts is cut into its octets |
| IpLanguage.Cut | arduino/api/IPAddress.cpp:155-194 | From any point of an accepted text the rest falls apart into fields, separators and at most one "::" |
| IpLanguage.RfcTexts | arduino/api/IPAddress.cpp:151-217 | A text of a form of RFC 4291 section 2.2, eight short fields or at most seven around "::", is accepted if and only if it does not have seven fields on one side of "::" |
| IpLanguage.SevenBehind | arduino/api/IPAddress.cpp:200-203 | "::1:2:3:4:5:6:7" has the compressed form and is refused |
| IpLanguage.MissingFirst | arduino/api/IPAddress.cpp:166-189 | Seven fields behind a single colon have neither form of RFC 4291 and are accepted |
| IpLanguage.FirstMissing | arduino/api/IPAddress.cpp:166-189 | ":1:2:3:4:5:6:7" is such a text |
| IpLanguage.DotRefused | arduino/api/IPAddress.cpp:191-193 | A text with a dot, an embedded IPv4 address for one, is refused by the colon parser |
| IpText.PlainForm | arduino/api/IPAddress.cpp:196-199 | Fields without "::" are accepted exactly when there are eight, with their hexadecimal values |
| IpText.ElidedForm | arduino/api/IPAddress.cpp:166-213 | Fields around "::" are accepted exactly when at most seven get stored, as left fields, zeros, right fields |
| IpText.NotDotted | arduino/api/IPAddress.cpp:107-136 | A text with a colon is never taken for dotted decimal, and without a dot it leaves no octet |
| IpAddress.IPAddress.FromString | arduino/api/IPAddress.cpp:92-97 | Dotted decimal first, otherwise the colon form on what that has left behind |
| IpAddress.IPAddress.FromString4 | arduino/api/IPAddress.cpp:99-149 | Result, type and all sixteen bytes, also after a refusal |
| IpAddress.IPAddress.FromString6 | arduino/api/IPAddress.cpp:151-217 | Result, type and all sixteen bytes; after acceptance the text alone determines them |
| IpAddress.IPAddress.ReadFields | arduino/api/IPAddress.cpp:152-194 | The character loop stores each closed field in network order and agrees with the scan of the text |
| IpAddress.IPAddress.ReadChar | arduino/api/IPAddress.cpp:157-194 | One turn of the character loop: the scan goes on, or ends with the fields stored so far |
| IpAddress.IPAddress.ReadSeparator | arduino/api/IPAddress.cpp:166-185 | The checks at a colon and the place remembered for "::" |
| IpAddress.IPAddress.OpenGap | arduino/api/IPAddress.cpp:208-213 | The overlapping move in place yields left fields, zeros, right fields, all indices within 0..15 |
| IpAddress.IPAddress.MoveUp | arduino/api/IPAddress.cpp:209-210 | The backward loop moves the bytes behind the gap to the end without overwriting one before it is read |
| IpAddress.GapBytes | arduino/api/IPAddress.cpp:208-213 | Moved and cleared bytes are the fields with the gap filled |
| IpAddress.Scan4Shape | arduino/api/IPAddress.cpp:103-146 | At most three octets are stored before the last, each below 256 |
| IpAddress.Scan6Shape | arduino/api/IPAddress.cpp:152-206 | At most seven fields are stored before the last, each of 16 bits |
| IpAddress.IPAddress.Equals | arduino/api/IPAddress.cpp:238-241 | Equal if and only if type and all bytes agree |
| IpAddress.IPAddress.PrintTo | arduino/api/IPAddress.cpp:264-327 | Writes the canonical text of the address; what it returns is the sum of what the writes returned, of which only the dots of an IPv4 address and all of an IPv6 address are single characters |
| IpAddress.CountIsLength | arduino/api/IPAddress.cpp:292-312 | The value returned is the number of characters written if and only if each single-character write returned 1 |
| IpAddress.UsbCountsMore | arduino/USB/PluggableUSBSerial.h:249-254 | On the USB port, whose single-character write returns the character's code, printTo returns more than the number of characters for every address, by 135 for IPv4 |
| IpAddress.IPAddress.Print6 | arduino/api/IPAddress.cpp:268-317 | Elides exactly the leftmost longest run of two or more zero fields (RFC 5952 sections 4.2.1 to 4.2.3) |
| IpAddress.IPAddress.Print4 | arduino/api/IPAddress.cpp:319-326 | Four decimal octets with dots |
| IpAddress.LongestRun | arduino/api/IPAddress.cpp:270-289 | The run counters find the leftmost longest run, or -1 when no two adjacent fields are zero |
| IpAddress.RunGrown | arduino/api/IPAddress.cpp:275-285 | The current run of zero fields replaces the longest one exactly when it is longer, so the leftmost of equal ones stays |
| IpAddress.PrintField | arduino/api/IPAddress.cpp:292-305 | The nibble tests write the field in lower-case hexadecimal without leading zeros |
| IpAddress.HexNibbles | arduino/api/IPAddress.cpp:292-305 | Suppressing leading zero nibbles gives the shortest numeral of the field |
| UsbSerial.Run | arduino/USB/PluggableUSBSerial.h:223-245 | Over any run of packets, transfer ends, line states, resets, configurations and calls: the packets accepted, a function of the events alone, are the values the reads returned, the ring and the unread packet, in order; only a disconnect cuts bytes off, and then at most the unread packet. read and peek return the next byte not yet returned. What was handed over is a prefix, in packets, of what was sent. Every send stands at the end of the bytes queued before it and, unless it has failed, apart from all others; it waits, or is true with its own bytes handed over, or false because of a disconnect |
| UsbSerial.USBSerial.Step | arduino/USB/USBCDC.cpp:310-486 | One event of any kind changes the received, sent and returned streams as recorded, and the counts of the receive path as their transition function says; sends posted before stay accounted for |
| UsbSerial.USBSerial.RecordStep | arduino/USB/USBCDC.cpp:310-486 | The record of a run, with the place of every send and the byte of every read and peek, extends by one event |
| UsbSerial.USBSerial.EndsQueued | arduino/USB/USBCDC.cpp:362-369 | At any time all sends that have not failed end within the queued bytes, so the next one stands behind them |
| UsbSerial.USBSerial.RunMeans | arduino/USB/PluggableUSBSerial.h:300-312 | The bytes returned are the received ones but for as many as the counts put in the ring and the packet buffer |
| UsbSerial.AccountedMoved | arduino/USB/USBCDC.cpp:56-75 | A waiting send goes on waiting further in front, or has finished with success, or has failed in a disconnect |
| UsbSerial.USBSerial.NothingLost | arduino/USB/PluggableUSBSerial.h:300-312 | In every valid state nothing received is lost, duplicated or reordered, also with a full ring |
| UsbSerial.USBSerial.OnInterrupt | arduino/USB/PluggableUSBSerial.h:300-312 | Moves as much of the packet as the ring has room for to its end, and asks for the next packet exactly when all is moved |
| UsbSerial.DrainedFully | arduino/USB/PluggableUSBSerial.h:300-312 | Moving bytes on loses none, stops only at an empty packet buffer or a full ring of 256, and asks for the next packet exactly at an empty buffer |
| UsbSerial.USBSerial.Store | arduino/USB/PluggableUSBSerial.h:308-311 | The copy loop appends all the bytes in order |
| UsbSerial.USBSerial.Begin | arduino/USB/USBSerial.cpp:70-76 | Registers the callback and moves what fits |
| UsbSerial.USBSerial.AvailableInPacket | arduino/USB/USBSerial.cpp:111-122 | The number of unread packet bytes, 0 while a read is in progress |
| UsbSerial.USBSerial.Available | arduino/USB/PluggableUSBSerial.h:223-229 | The number of bytes in the ring after moving what fits |
| UsbSerial.USBSerial.Peek | arduino/USB/PluggableUSBSerial.h:231-237 | The oldest byte after moving what fits, or -1; it is the first byte received and not yet returned |
| UsbSerial.USBSerial.Read | arduino/USB/PluggableUSBSerial.h:239-245 | Returns and removes the oldest byte, or -1; while connected it returns a byte exactly if not all that was received has been returned |
| UsbSerial.USBSerial.ReceiveIsr | arduino/USB/USBSerial.cpp:97-109 | A packet is appended to what was received; with the callback attached and a connection, as much of it as fits is in the ring at once |
| UsbSerial.USBSerial.Send | arduino/USB/USBCDC.cpp:362-373 | The send stands right behind the bytes queued before it. Whatever events happen while its caller waits and before it goes on: complete, it is true with all its bytes handed over at that place, or false because of a disconnect or none to begin with; not complete, it waits in the queue, and has seen no more transfer ends than bytes and sends were in front of it |
| UsbSerial.USBSerial.Await | arduino/USB/USBCDC.cpp:371-372 | The wait over any list of events, the caller resuming at any time after completion |
| UsbSerial.USBSerial.WaitStep | arduino/USB/USBCDC.cpp:371-372 | Any event during a wait: a result once given stays, and every transfer end brings a waiting send forward |
| UsbSerial.USBSerial.Write | arduino/USB/PluggableUSBSerial.h:256-267 | Full packets and a last smaller one make up the bytes, each send over before the next, successful ones handed over in order; the count returned is that of all bytes, and is the number handed over if and only if no send has failed |
| UsbSerial.USBSerial.SendNext | arduino/USB/PluggableUSBSerial.h:261-265 | The next chunk joins the sends that are over, or is the one that still waits |
| UsbSerial.USBSerial.WriteByte | arduino/USB/USBSerial.cpp:78-85 | The single-byte write returns the byte itself once it is handed over, -1 when the send has failed, and 0 without a connection |
| UsbSerial.WriteMiscounts | arduino/USB/PluggableUSBSerial.h:256-267 | A run in which write returns 1 with its one byte not handed over |
| UsbSerial.MissingNone | arduino/USB/PluggableUSBSerial.h:263-264 | Among sends that are over no byte is missing if and only if all have succeeded |
| UsbSerial.USBSerial.HostStep | arduino/USB/USBCDC.cpp:286-338 | Every host event keeps the invariant, changes the streams as recorded, and finishes sends at the front of the queue: with success and all bytes in place, or all of them without success in a disconnect |
| UsbSerial.USBSerial.CallStep | arduino/USB/PluggableUSBSerial.h:223-267 | Every call keeps the invariant and receives nothing; its value is on record, and a send joins the queue at the end of the queued bytes or is over at once |
| UsbCdc.USBCDC.ProcessWrite | arduino/USB/USBCDC.cpp:56-75 | The head of the queue hands over bytes that extend the stream within what was queued; done means all of them, not done a transfer in flight |
| UsbCdc.USBCDC.HandOver | arduino/USB/USBCDC.cpp:63-66 | The bytes taken are the next ones of the stream, a packet at most and none behind a transfer in flight |
| UsbCdc.USBCDC.ProcessTx | arduino/USB/USBCDC.cpp:323-324 | Completes sends in queue order, with success and all bytes in place; without a connection all fail and the queue is empty |
| UsbCdc.USBCDC.AddWrite | arduino/USB/USBCDC.cpp:362-369 | A new send joins the stream behind all others; it is complete at once, with all its bytes in place or without a connection, or waits at the end of the queue |
| UsbCdc.USBCDC.Send | arduino/USB/USBCDC.cpp:362-371 | The same, keeping the receive side |
| UsbCdc.USBCDC.SendNb | arduino/USB/USBCDC.cpp:375-394 | Takes at most a packet, as one chunk, and nothing without a connection or while a transfer is in flight |
| UsbCdc.USBCDC.SendIsrStart | arduino/USB/USBCDC.cpp:396-405 | Hands over the filled buffer unless it is empty or a transfer is in flight |
| UsbCdc.USBCDC.SendIsr | arduino/USB/USBCDC.cpp:411-424 | Sends leave the queue from its front only, with success and all bytes in place, and something always moves |
| UsbCdc.HandedOver | arduino/USB/USBCDC.cpp:63-66 | The next bytes of a send that is placed in what was queued extend what was handed over within it |
| UsbCdc.ChainedAppend | arduino/USB/USBCDC.cpp:366-367 | A send added to the queue stands at the end of the stream, all others where they stood |
| UsbCdc.USBCDC.ReceiveNb | arduino/USB/USBCDC.cpp:443-458 | Takes the front of the unread bytes, nothing while a read is in progress, and asks for the next packet when all are taken |
| UsbCdc.USBCDC.ReceiveIsrStart | arduino/USB/USBCDC.cpp:460-467 | Asks for a packet exactly when the buffer is empty |
| UsbCdc.USBCDC.ProcessRead | arduino/USB/USBCDC.cpp:96-116 | What the read gets is what leaves the packet buffer; it is done exactly when it has enough, or without a connection |
| UsbCdc.USBCDC.ProcessRx | arduino/USB/USBCDC.cpp:333-334 | Completes receives in queue order, each with consecutive bytes of the stream and as many as it wanted; without a connection all fail and the queue is empty |
| UsbCdc.USBCDC.Receive | arduino/USB/USBCDC.cpp:426-440 | Complete at once, with consecutive bytes of the stream and as many as it wanted or without a connection, or waiting at the end of the queue |
| UsbCdc.USBCDC.ReceiveIsr | arduino/USB/USBCDC.cpp:473-486 | The buffer is empty, as the source asserts, and the packet is appended to what was received; waiting receives are served in order |
| UsbCdc.USBCDC.ChangeTerminalConnected | arduino/USB/USBCDC.cpp:310-338 | A disconnect completes every waiting read and write with false and leaves both lists empty, as the source asserts; nothing handed over or taken is lost |
| UsbCdc.USBCDC.CallbackReset | arduino/USB/USBCDC.cpp:188-194 | A bus reset disconnects in the same way |
| UsbCdc.USBCDC.CallbackSetConfiguration | arduino/USB/USBCDC.cpp:286-303 | Starts the first read, at the start of the buffer |
| RingBuffer.RingBufferN.StoreChar | arduino/api/RingBuffer.h:70-82 | Appends the byte unless the ring is full |
| RingBuffer.RingBufferN.ReadChar | arduino/api/RingBuffer.h:93-103 | Removes and returns the oldest byte, or -1 |
| RingBuffer.RingBufferN.Peek | arduino/api/RingBuffer.h:118-124 | The oldest byte, or -1 |
| RingBuffer.RingBufferN.Clear | arduino/api/RingBuffer.h:85-90 | The ring is empty |
| RingBuffer.RingBufferN.Available | arduino/api/RingBuffer.h:106-109 | The number of stored bytes |
| RingBuffer.RingBufferN.AvailableForStore | arduino/api/RingBuffer.h:112-115 | The number of bytes that still fit |
| RingBuffer.RingBufferN.NextIndex | arduino/api/RingBuffer.h:127-130 | The next index, going round |
| Printing.Print.PrintULLNumber | arduino/api/Print.cpp:283-333 | The chunked form writes exactly the numeral of n in the 8-bit base asked for (10 for a base below 2), nothing for 0, with at most 64 digits |
| Printing.FastIsReference | arduino/api/Print.cpp:260-333 | The chunked form writes what the reference form does if and only if n is not 0 and has no digit 201, which the reference form takes for the end of its string |
| Printing.NumeralWhole | arduino/api/Print.cpp:250-257 | A terminated string shows the whole numeral if and only if it has no digit 201, so always for a base up to 201 |
| Printing.Print.PrintULLNumberReference | arduino/api/Print.cpp:260-280 | The reference form writes the numeral of n in the base asked for (10 below 2), "0" for 0, up to a digit 201 |
| Printing.Print.PrintNumber | arduino/api/Print.cpp:240-258 | Writes the numeral of n in the base asked for (10 below 2), up to a digit 201, within its 33-byte buffer and returns the number of characters |
| Printing.Print.PrintLong | arduino/api/Print.cpp:88-102 | A minus sign in base 10 only; in any other base the number plus 2^32 if negative, in the low 8 bits of the base, and a single byte in base 0. The sign and that byte count as their single-character writes do |
| Printing.Print.PrintDecimal | arduino/api/Print.cpp:88-102 | print(n) writes n in decimal with its sign and returns the number of digits, and with a sign what its write returned besides (so 44 too many for a negative n on the USB port) |
| Printing.Print.PrintDecimalByte | arduino/api/Print.cpp:73-76 | An unsigned char in base 10 |
| Printing.TotalIsLength | arduino/api/Print.cpp:68-71 | Single-character writes of a text add up to its length if and only if each returned 1 |
| Printing.Print.PrintUnsigned | arduino/api/Print.cpp:104-108 | Base 0 writes a single byte and returns what its write does, any other one the numeral in its low 8 bits as a base |
| Printing.ChunkSize | arduino/api/Print.cpp:293-300 | th16 stays base^innerLoops and never leaves 16 bits |
| Printing.FitsAfter | arduino/api/Print.cpp:294-300 | Below 0xFFFF / base one more multiplication stays within 16 bits |
| Printing.FillChunks | arduino/api/Print.cpp:302-324 | The chunk loop stores all significant digits, lowest first, within 64 places |
| Printing.ChunkStep | arduino/api/Print.cpp:304-315 | A chunk's remainder holds exactly the low digits and its quotient the rest |
| Printing.PeelChunk | arduino/api/Print.cpp:310-315 | The inner loop stores exactly innerLoops digits, leading zeros included |
| Printing.PeelRest | arduino/api/Print.cpp:318-324 | The last loop stores the remaining digits without leading zeros |
| Printing.StoreBackwards | arduino/api/Print.cpp:250-255 | The digit loop leaves the numeral at the end of the buffer |
| Printing.DigitsFit | arduino/api/Print.cpp:242-243 | In any base from 2 a value has at most as many digits as bits |
| Numerals.DigitsAreNumeral | arduino/api/Print.cpp:250-255 | The digits are below the base, have the right value by position and no leading zero |
| Numerals.NumeralUnique | arduino/api/Print.cpp:250-255 | There is one such numeral of a number |
| Numerals.DigitsSplit | arduino/api/Print.cpp:302-316 | Dividing by base^k cuts the numeral k digits from its end |
| Itoa.Ltoa | arduino/itoa.c:32-80 | The terminated text of the value, or a refusal that leaves the buffer alone; at most 32 of the 33 places of tmp |
| Itoa.LtoaReadsBack | arduino/itoa.c:49-80 | Read back, the text is the value in base 10, with a minus sign exactly if it is negative, and in any other base the value modulo 2^32, without leading zeros |
| Itoa.Ultoa | arduino/itoa.c:87-123 | The same for unsigned values |
| Itoa.StoreForward | arduino/itoa.c:61-69 | The digit loop fills tmp with the numeral, lowest digit first |
| Itoa.CopyReversed | arduino/itoa.c:71-77 | Copies the digits out in reading order and terminates them |
| Itoa.TextValue | arduino/itoa.c:105-120 | The text has digits and lower-case letters only, the right value by position and no leading zero |
| Itoa.SameUpToCase | arduino/api/Print.cpp:240-258 | itoa.c and printNumber write the same text up to letter case |
| Itoa.LtoaFits | arduino/api/String.cpp:95-117 | The signed String constructors and, in decimal, the concat overloads have room enough |
| Itoa.UltoaFits | arduino/api/String.cpp:300-333 | The unsigned callers have room enough, the one-byte ones included |
| NumberReading.ParseInt | arduino/api/Stream.cpp:132-158 | The value read and the rest of the stream, with skipping, ignored characters and wrap-around |
| NumberReading.PeekNextDigit | arduino/api/Stream.cpp:58-84 | Leaves the stream at the first digit or minus sign the lookahead mode lets it reach |
| NumberReading.AllDiscarded | arduino/api/Stream.cpp:58-84 | SKIP_ALL discards all characters in front of a digit or minus sign |
| NumberReading.NoneDiscarded | arduino/api/Stream.cpp:58-84 | SKIP_NONE returns 0 and leaves anything but a number unread |
| NumberReading.BlanksDiscarded | arduino/api/Stream.cpp:58-84 | SKIP_WHITESPACE discards spaces, tabs, carriage returns and line feeds only, and returns 0 at anything else but a number |
| NumberReading.AnyDigitsRead | arduino/api/Stream.cpp:132-158 | Any digits, behind a minus sign or not, are read as the number they spell modulo 2^32, and what follows is left |
| NumberReading.IgnoredSkipped | arduino/api/Stream.cpp:143-153 | Ignored characters between or behind the digits are as if they were not there |
| NumberReading.PrintedNumberReadsBack | arduino/api/Stream.cpp:132-158 | print(n) and a stopping character: the stream is left there, and n is returned if and only if n is 0, the ignore character is not in its text, or n is LONG_MIN and only its sign is ignored |
| NumberReading.ScanDigits | arduino/api/Stream.cpp:143-153 | The loop reads digits, leaving out the ignored one, and stops after them |
| NumberReading.LeavingOut | arduino/api/Stream.cpp:144-149 | Leaving a digit out of a number without leading zero always makes it smaller |
| NinaSpi.ReplyRoundTrip | WifiNINA/src/utility/spi_drv.cpp:342-379 | A reply laid out as a command is, its code the command with the top bit set, behind noise without start or error byte comes back as the same parameters with exactly its bytes consumed, if and only if the noise has at most 1000 bytes |
| NinaSpi.OneByteFrame | WifiNINA/src/utility/spi_drv.cpp:485-593 | The bytes of a frame with one parameter of one byte |
| NinaSpi.OneByteReply | WifiNINA/src/utility/spi_drv.cpp:342-379 | The bytes of a reply with one parameter of one byte, and what they are parsed to |
| NinaSpi.WithReplyFlag | WifiNINA/src/utility/spi_drv.cpp:347 | The awaited code has the top bit set and is the command otherwise |
| NinaSpi.ErrorByteActsAsStart | WifiNINA/src/utility/spi_drv.cpp:160-173 | Behind at most 1000 bytes of noise any bytes after an error byte are parsed as after the start byte: same result, parameters and rest |
| NinaSpi.ErrorReplyRefused | WifiNINA/src/utility/spi_drv.cpp:342-379 | A reply that starts with the error byte is refused if and only if too much noise precedes it, or the reply code or the non-zero number of parameters behind it is not the awaited one |
| NinaSpi.SkipNoise | WifiNINA/src/utility/spi_drv.cpp:160-173 | Each byte that is neither START nor ERR costs one retry, and one more than the retries fails |
| NinaSpi.ParamsOf | WifiNINA/src/utility/spi_drv.cpp:355-363 | Reading parameters undoes laying them out |
| NinaSpi.SpiBus.WaitResponseParams | WifiNINA/src/utility/spi_drv.cpp:342-379 | Result, parameters stored and bytes consumed, on every byte stream |
| NinaSpi.SpiBus.ReadParams | WifiNINA/src/utility/spi_drv.cpp:355-363 | Each of the caller's buffers gets its own parameter |
| NinaSpi.SpiBus.WaitSpiChar | WifiNINA/src/utility/spi_drv.cpp:160-173 | 1 at the awaited character, -1 at an error byte, 0 after 1001 others |
| NinaSpi.SpiBus.SendCommand | WifiNINA/src/utility/spi_drv.cpp:485-593 | A command and its parameters make one frame, the last parameter closing it |
| NinaSpi.SpiBus.SendCmd | WifiNINA/src/utility/spi_drv.cpp:575-593 | The header, and the end byte when there are no parameters |
| NinaSpi.SpiBus.SendParam | WifiNINA/src/utility/spi_drv.cpp:485-506 | Length, bytes, and the end byte after the last parameter |
| Slip.WriteEscapedBytes | WifiNINA/examples/Tools/FirmwareUpdater/ESP32BootROM.cpp:316-333 | Writes the escaped bytes |
| Slip.NoEndInside | WifiNINA/examples/Tools/FirmwareUpdater/ESP32BootROM.cpp:316-333 | The END byte never occurs among escaped bytes |
| Slip.DecodeEscape | WifiNINA/examples/Tools/FirmwareUpdater/ESP32BootROM.cpp:320-332 | An RFC 1055 decoder recovers the bytes, whatever follows |
| Slip.Received | WifiNINA/examples/Tools/FirmwareUpdater/ESP32BootROM.cpp:316-333 | Escaped and closed by END, any bytes arrive at an RFC 1055 receiver as they are, whatever follows |
| Slip.EscapeConcat | WifiNINA/examples/Tools/FirmwareUpdater/ESP32BootROM.cpp:256-257 | Escaping distributes over concatenation |
| Slip.Command | WifiNINA/examples/Tools/FirmwareUpdater/ESP32BootROM.cpp:240-264 | The frame written: header, escaped checksum and data, END |
| Slip.CommandDecodes | WifiNINA/examples/Tools/FirmwareUpdater/ESP32BootROM.cpp:256-258 | Up to the closing END the two escaped calls arrive as checksum followed by data, whatever follows |
| Slip.ComputeChecksum | WifiNINA/examples/Tools/FirmwareUpdater/ESP32BootROM.cpp:242-250 | The data opcode folds the bytes from the 16th on into the seed; other opcodes have checksum 0 |
| Slip.ChecksumVerifies | WifiNINA/examples/Tools/FirmwareUpdater/ESP32BootROM.cpp:244-250 | The checksum of a data command and the payload from the 16th byte on xor to 0xEF; other commands carry 0 |
| Slip.SpecialCharacters | WifiNINA/examples/Tools/FirmwareUpdater/ESP32BootROM.cpp:316-333 | 0xC0 and 0xDB are escaped as RFC 1055 fixes it, other bytes stay |
| PluggableUsb.PluggableUSB.Plug | arduino/api/PluggableUSB.cpp:70-95 | Accepted exactly when the endpoints fit; appended to the list with the next ranges, all earlier modules and slots untouched; a refusal changes nothing |
| PluggableUsb.PluggableUSB.Append | arduino/api/PluggableUSB.cpp:76-84 | The pointer walk links the node at the end |
| PluggableUsb.PluggableUSB.Allocate | arduino/api/PluggableUSB.cpp:86-92 | The ranges stay consecutive and the slots hold each owner's types |
| PluggableUsb.PluggableUSB.FillSlots | arduino/api/PluggableUSB.cpp:89-92 | The slots from the old lastEp on get the node's types, earlier slots stay |
| PluggableUsb.OwnedBelow | arduino/api/PluggableUSB.cpp:86-92 | Every module's endpoint range lies within what is allocated |
| PluggableUsb.OwnedApart | arduino/api/PluggableUSB.cpp:86-92 | The endpoint ranges of two modules do not meet and follow the list order |
| PluggableUsb.InterfacesBelow | arduino/api/PluggableUSB.cpp:86-88 | The same for interfaces while their number stays below 256 |
| PluggableUsb.InterfacesCounted | arduino/api/PluggableUSB.cpp:86-88 | The interface counter is the number of interfaces plugged, modulo 256 |

## Left out

- NumberReading.ParseInt: excludes the ignore character 0xFF, with which the loop would not end at a timeout, because the cast of -1 equals it.
- UsbCdc.USBCDC.CallbackSetConfiguration: requires an empty packet buffer; with unread bytes the source passes the stack a pointer into the middle of it, which is not followed here.
- NinaSpi.SpiBus.WaitResponseParams: requires buffers that hold the reply; the source does not check its caller's.
- NinaSpi.SpiBus.ReadParams: the same.
- PluggableUsb.PluggableUSB.Plug: requires a module that is not in the list yet, as the source does of its callers; it would close the list into a ring.
- PluggableUsb.InterfacesBelow: needs an interface count below 256, since lastIf is an 8-bit counter that wraps
  (`PluggableUsb.InterfacesCounted`).
- Slip.Command: the 16-bit length in the header is written unescaped by the source, so only the part behind it is claimed to arrive.
- IpAddress.IPAddress.FromString: texts are taken up to their terminating zero, and classified as ASCII.
- Itoa.Ltoa: needs a destination that holds the text, as the source does; `Itoa.LtoaFits` and `Itoa.UltoaFits` are about the callers' buffers.
- Devices that refuse a character while printing, and the early end of `Print::write` at the first one refused.
- Hardware CRC mode and the inline assembly of the bit steps.
- `wait_ready`, the connected list, line coding, descriptors and endpoint setup of the CDC device.
- `PluggableUSBDevice` and its descriptor splicing; `WiFiSocketBuffer`; the buffer operations of `String`.
- The other SPI reply readers and the 16-bit length forms, which repeat the same loops.
- Floating point (`printFloat`, `parseFloat`), clocks, timeouts, locks, threads.
- The application's pin, PWM, I2C and web-page code, which has no algorithm beyond single branches.
