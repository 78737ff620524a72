# A model of the charge controller mirror

The repository mirrors a solar charge controller. A client polls the controller over a serial line
(Modbus RTU), keeps what it answers in a register table, ships the table to a server in a framed
protocol of its own (MTTP), and answers a display, a Modbus TCP master and a text port from the table.
This project models the four cores of that program and what they do together, and proves what each is
for. Where the program changes things in place, the model does too: methods over arrays and fields, each
proved against a function of the old state; the properties are lemmas about those functions.

| file | models |
|---|---|
| `Bytes.dfy` | bytes, 16-bit words and the packing macros of modbus.h |
| `Crc.dfy`, `CrcBits.dfy`, `CrcTwoFlips.dfy` | the check value of modbus.c: the two tables against the shift register, and which errors it detects |
| `Modbus.dfy` | cutting the serial line into frames by the silences between bytes; sending and receiving |
| `Mttp.dfy`, `MttpProofs.dfy`, `MttpDrain.dfy` | printer, parser and command slots of mttp.c; round trip; which messages the server can empty the slots of |
| `Table.dfy`, `Memory.dfy` | the register table of memory.c: as values and functions, and as the class that changes it in place |
| `TableProofs.dfy`, `TableWrites.dfy`, `Overlay.dfy` | range reads, pairs of registers, stored answers; each write entry by entry; every run of writes |
| `Config.dfy`, `ConfigProofs.dfy` | the table-building part of the configuration file; what its sections configure; the table as it is set up |
| `Replication.dfy`, `SentEntries.dfy`, `TracerClient.dfy`, `Server.dfy`, `ServerProofs.dfy` | from the client's table through a frame to the server's table; the server's loop over frames of one length |
| `TwoFrames.dfy`, `TwoFramesLost.dfy` | the server's loop over two frames of any two lengths, in all its turns |
| `HexTunnel.dfy`, `MtcpServer.dfy`, `Display.dfy`, `Answers.dfy` | the display's requests: answered from the table, or put through to the controller as text |
| `ModbusServer.dfy` | answers to a Modbus TCP master |

The serial line is a list of arriving bytes, each with the pause before it. A message that is parsed comes
with the byte that lies behind it in memory, because mttp.c and memory.c both read one byte too far on an
odd end. Integer widths are written out: a 16-bit sum wraps, `uint8_t` assignments truncate. `std::stoi`
appears as a number or a failure, except for the two hex digits of the text tunnel, which are modelled
character by character. The standards the program follows are MODBUS over Serial Line V1.02 (sections
2.5.1.1, 2.5.1.2 and 6.2.2), MODBUS Application Protocol V1.1b3 (section 6.4) and MODBUS Messaging on TCP/IP
Implementation Guide V1.0b (section 3.1.3).

Where the code does not do what one would expect, the model follows the code and says exactly when the
expectation holds:

- The longest frame `Receive` accepts has 255 bytes although the senders allow 256 (`SentIsReceived`).
- A call of `Receive` ends T3.5 after the frame it judges, and the next call waits for another T3.5 of silence. So calls one
  after the other judge any list of frames, all and in order, if and only if twice T3.5 lies between each two, and less than that and the time limit;
  after less, but at least the T3.5 the standard asks for, a frame is thrown away (`NextJudged`, `InTurnIff`).
- The server's loop over the command slots stops at the first free one, and a command whose body has fewer than
  three bytes leaves its slot free. For every message the loop empties the decoder if and only if, between the
  marks, no such short body comes before a longer one (`DrainEmptiesIff`; `DrainBodiesIff` for a list of bodies of any
  length; `GapExample`). The commands of a printed frame can always be taken out completely, more than there are slots
  for included (`PrintedDrains`).
- A 32-bit number written to user registers goes into two entries that lie side by side in the list, whatever their
  addresses. It can be read back if and only if the next address is configured (`PutUser32Get32`; `PutUser32Lost`).
- A range read of discrete inputs compares the end with the values instead of the addresses. It gives the inputs
  with an address in the range if and only if no value in the range is beyond the end address and the value of the
  first input behind it is (`DiscRangeIsFilterIff`); from an end of 0xFF on, if and only if there is no input behind the range
  (`DiscRangeToTheLast`). So the answer about the input at 0x2000 always announces one byte and has one if and only
  if there is no further input (`DiscreteCountIff`); in the table as it is set up it has two (`CleanedInputs`).
- The server's loop takes the number of bytes it has processed for a place in the buffer. A buffer with one frame is
  served in full (`OneFrameServed`). Of frames of one length every one is looked at if and only if there are
  at most two (`EveryFrameBegunIff`), and the table is then that of the first two (`EqualFramesServed`);
  with three, the third frame's value is not in the table (`ThirdFrameLost`).
- Two frames of different length are both saved in the first two turns (`TwoFramesTurns`), but the up to 98 turns after that
  begin somewhere inside one of them, and what they find there can be saved over the second frame's values. An escaped DLE
  in a payload can read as a start mark: then the older value is saved again, and the newer one is not in the
  table (`SecondFrameLost`). With no DLE in addresses and payloads the table is, from the second turn to the last, the one with
  both frames saved, for any two lengths but these: the second frame is longer, its length is 0x1004 modulo
  0x10000, so that its length bytes read as the start of a command, it has fewer than fifty commands, and both frames together have
  more than fifty (`TwoFramesServed`). There it can go wrong, with 51 commands already (`LongFrameLost`).
- A Modbus TCP request is answered with the registers the table has, which may be fewer than were asked for
  (`ExactlyNumber`, with `OneOfTwo` as an example).

## Model

| member | source | states |
|---|---|---|
| `Bytes.UnpackPack` | modbus.h:87-92 | words written with the packing macros are read back unchanged, for any number of them |
| `Bytes.PackUnpack` | modbus.h:87-92 | and bytes of even number survive being read as words and written again |
| `Crc.TableHiIsShift` | modbus.c:37-65 | every entry of the first table is the low half of the register of section 6.2.2 after eight shifts with polynomial 0xA001 |
| `Crc.TableLoIsShift` | modbus.c:66-93 | every entry of the second table is the high half of it |
| `Crc.Crc16` | modbus.c:371-386 | the table-driven loop computes the bit-by-bit check value, start value 0xFFFF, high byte sent first, of every message |
| `Crc.CrcOkIffNoResidue` | modbus.c:575-582 | a frame passes the check if and only if the register is empty after the whole frame, check bytes included |
| `Crc.BurstDetected` | modbus.c:371-386 | a frame that differs from a good one within sixteen consecutive bits of the line, or two adjacent bytes, has a wrong check value, at every length |
| `CrcBits.ResidueBitByBit` | modbus.c:371-386 | the byte-wise register is the bit-wise one fed in the order the line sends the bits |
| `CrcBits.ParityKept` | modbus.c:371-386 | the parity of the register is the parity of the bits that went in |
| `CrcBits.OddFlipsDetected` | modbus.c:575-589 | any odd number of flipped bits in a good frame makes its check value wrong, at every length |
| `CrcTwoFlips.NotBack` | modbus.c:371-386 | a bit in the register is not back at its place after any number of shifts from 1 to 2039 |
| `CrcTwoFlips.TwoFlipsDetected` | modbus.c:575-589 | two flipped bits less than 2040 apart make the check value wrong |
| `CrcTwoFlips.FourBitsApart` | modbus.c:575-589 | any two good frames of one length up to 255 bytes differ in at least four bits |
| `Modbus.JudgedOnce` | modbus.c:446-597 | at most one burst of a trace of bytes and pauses is the one that section 2.5.1.1 and the code let be judged |
| `Modbus.Modbus.ReadBurst` | modbus.c:453-564 | the state machine collects exactly that burst, complete and unchanged, or gives up when there is none; it ends on every trace |
| `Modbus.Modbus.Receive` | modbus.c:446-597 | the judged burst is handed over unchanged if and only if it has at least 4 bytes, the right id and a right check value; otherwise 0; the line goes on right after the closing silence |
| `Modbus.Modbus.Check` | modbus.c:567-594 | the three conditions on a complete frame, both ways |
| `Modbus.Modbus.SendRequest` | modbus.c:388-439 | a message of 1 to 254 bytes goes out with its check value behind it, once, then one answer is received; others send nothing |
| `Modbus.Modbus.SendConfirmation` | modbus.c:599-640 | a message of up to 254 bytes goes out with its check value behind it, once; longer ones send nothing |
| `Modbus.SentIsReceived` | modbus.c:388-597 | what one end sends is received by the other if and only if the message has 2 to 253 bytes and carries the other end's id |
| `Modbus.BurstNotAccepted` | modbus.c:567-590 | no trace makes `Receive` hand over a frame that differs from a good one by a burst of up to sixteen bits |
| `Modbus.FewFlipsNotAccepted` | modbus.c:567-590 | nor one that differs by one, two or three bits |
| `Modbus.OddFlipsNotAccepted` | modbus.c:567-590 | nor one that differs by an odd number of bits |
| `Modbus.NextJudged` | modbus.c:446-597 | after a judged burst the next call judges the burst behind it if and only if twice T3.5, but not the time limit more, lies between them, and that burst is whole |
| `Modbus.InTurnIff` | modbus.c:446-597 | calls one after the other judge all bursts of a list, in order and unchanged, if and only if twice T3.5, but not the time limit more, lies between each two |
| `Mttp.Mttp.InitBuffer` | mttp.c:44-102 | a started frame without commands, or the closed heartbeat frame |
| `Mttp.Mttp.AddCommand` | mttp.c:104-168 | any buffer that is not closed gets exactly the printed command, and its length bytes count on; a started frame is then the frame with one more command; at most 9 bytes and twice the payload are added; a closed one does not change |
| `Mttp.Mttp.CloseBuffer` | mttp.c:457-473 | the end mark is added once, and the length bytes stay right |
| `Mttp.Mttp.GetBuffer` | mttp.c:220-248 | the finished frame of all commands added is copied out, again and again the same, or nothing if it does not fit |
| `MttpProofs.LengthHeader` | mttp.c:164-166 | the length bytes of every frame count all its bytes modulo 65536, exactly for whatever fits a send buffer |
| `Mttp.Mttp.AddMessage` | mttp.c:250-453 | slots and returned number are those of the scan, one byte after the other, for every message and any slots |
| `Mttp.Mttp.GetCommand` | mttp.c:170-218 | a used slot whose payload fits gives kind, address and payload once and is free afterwards; in every other case nothing changes |
| `MttpProofs.AdressTaken` | mttp.c:425-437 | the two address bytes are read right whether or not they are escaped, though the low one is read ahead |
| `MttpProofs.RoundTrip` | mttp.c:104-453 | any noise without DLE, then a frame of any commands, then anything: the slots from the first free one on hold exactly the commands in order, no other slot changes, and the number returned is the position behind the frame |
| `MttpProofs.FrameBytes` | mttp.c:44-168 | a frame of one command without DLE, byte by byte |
| `MttpProofs.BackToBack` | mttp.c:250-453 | any number of frames without a gap between them are decoded one by one by a caller that goes on where the last call stopped, as long as there is a free slot before each |
| `MttpProofs.OverfullFrame` | mttp.c:329-358 | of a frame with more commands than free slots the first ones are taken, and the number returned points behind the start mark of the first that is not |
| `MttpProofs.SlotsFilled` | mttp.c:280-453 | for every message at all: exactly the slots of commands with a complete header become used, and no other slot is touched |
| `MttpDrain.SlotsByLength` | mttp.c:280-453 | for every message in an empty decoder: slot i becomes used if and only if, between the marks, there is a command i of at least three bytes |
| `MttpDrain.DrainEmptiesIff` | server.c:256-281 | for every message: taking commands out from slot 0 on empties the decoder if and only if no command body of fewer than three bytes comes before one of at least three |
| `MttpDrain.DrainBodiesIff` | server.c:256-281 | the same read off the bodies, for any list of them, any noise before and any ending, a cut-off command included |
| `MttpDrain.PrintedDrains` | mttp.c:104-248 | a printed frame with any number of commands, after any noise without DLE and before anything, can be taken out completely |
| `MttpProofs.GapExample` | server.c:256-281 | a message after which it does not |
| `Config.ReadLinesKeeps` | memory.c:2318-2790 | while a configuration is read, addresses stay unique and in range, and entries from before stay first and unchanged |
| `Config.ConfiguredOk` | memory.c:2426-2792 | after any configuration file, read any number of times, user registers and coils are strictly increasing by address inside their ranges, and no earlier entry is lost |
| `ConfigProofs.ConfiguredIs` | memory.c:2426-2792 | exactly what the sections of the file say: with sections read off the positions of the lines, the lists have what they had and one entry for each allowed, new address that a complete section gives, the first one, with value 0xFFFF and signed if its first sign is true, or a coil with value 0xFF |
| `ConfigProofs.AddressConfigured` | memory.c:2426-2792 | an address is configured afterwards if and only if it was before, or it is in its range and a complete section gives it |
| `ConfigProofs.NextLine` | memory.c:2318-2790 | the local variables of the loop are, before every line, what the open section has said so far |
| `ConfigProofs.CleanedHas` | memory.c:494-593 | the table as it is set up: the listed addresses and no others in use, everything unset, nine registers signed, eight coils, two discrete inputs, and the configured lists |
| `Config.ListsIncreasing` | memory.c:30-32 | the address lists of the controller are strictly increasing, 131 registers up to 0x9070 |
| `Memory.Memory.Clean` | memory.c:494-593 | every slot is set up afresh from the address lists and the configuration, whatever was there before, and the table is well-formed |
| `Memory.CleanedOk` | memory.c:494-593 | such a table has strictly increasing addresses and all its bounds |
| `Memory.Memory.ReadConfig` | memory.c:2318-2840 | the two lists are those of the lines, one after the other, sorted |
| `Memory.Memory.GetRegStartIndex` | memory.c:612-631 | the place of an address, 0 for address 0, -1 for one that is not in the table |
| `Memory.Memory.GetRegister` | memory.c:1446-1481 | the words of the range are copied, with or without overrides; -1 for an unknown start or a buffer that is too small |
| `Memory.Memory.GetRegisterBytes` | memory.c:1483-1518 | the bytes are the packing of the same words, high byte first, and nothing before the offset changes |
| `Memory.Memory.GetCoil` | memory.c:1550-1578 | the coils of the range are copied |
| `Memory.Memory.GetDiscInp` | memory.c:1615-1644 | the inputs up to the first whose value exceeds the end are copied |
| `Memory.CleanedInputs` | memory.c:441-454 | the request for one discrete input of a freshly set up table is answered with the bytes of two, and a count of one |
| `Memory.Memory.GetUserRegister` | memory.c:1520-1548 | the values of exactly the user registers in the range and the first one's address; -1 if and only if the buffer is full before the list ends |
| `Memory.Memory.GetUserCoil` | memory.c:1580-1611 | the same for user coils |
| `Memory.Memory.GetHeader` | memory.c:1646-1706 | the header of a slot or of an address, 0 when there is none, -1 when the address is unknown or the header longer than the room, for a slot by more than one byte |
| `Memory.Memory.GetDeviceInfo` | memory.c:1708-1745 | one of the two device information blocks, -1 when it does not fit |
| `Memory.Memory.Save` | memory.c:168-348 | the whole new table and the number returned, for each of the nine kinds of payload |
| `Memory.Memory.SaveResponse` | memory.c:68-166 | the whole new table and the number returned, for each function code of a response |
| `TableWrites.ResponseInfo` | memory.c:75-96 | a response with function 0x2B becomes, without its check value, the block its fourth byte names, and nothing else changes |
| `TableWrites.ResponseRegs` | memory.c:98-119 | one with 0x43: the header at the register asked for, two bytes a register from there on, high one first, and nothing else |
| `TableWrites.ResponseBits` | memory.c:121-149 | one with 0x01 or 0x02: data byte k is the value of the coil or input k places behind the address asked for, and nothing else changes |
| `TableWrites.ResponseOne` | memory.c:152-160 | one with 0x03 or 0x04: one value, at the register asked for |
| `TableWrites.ResponseOther` | memory.c:68-166 | any other function changes nothing |
| `TableWrites.SaveInfo` | memory.c:174-204 | kinds 0x31 and 0x32: one of the two blocks of up to 100 bytes; unknown kinds change nothing |
| `TableWrites.SaveRegs` | memory.c:206-345 | kinds 0x33 and 0x37: word k of the payload is the value or the override k places behind the address, as far as there are slots, and nothing else changes |
| `TableWrites.SaveCells` | memory.c:252-311 | kinds 0x34 and 0x35: the same with bytes for coils and inputs |
| `TableWrites.SaveHeader` | memory.c:313-328 | kind 0x36: a header of up to 30 bytes is kept with its register |
| `TableWrites.SaveUser` | memory.c:221-296 | kinds 0x38 and 0x39: user registers and coils from the address on, all or nothing |
| `TableWrites.SaveUserUnknown` | memory.c:221-296 | nothing for an address that is not configured |
| `Table.SavedOk` | memory.c:168-348 | saving keeps the table well-formed and changes no address |
| `Table.SavedResponseOk` | memory.c:68-166 | so does saving a response |
| `Memory.Memory.GenerateResponse` | memory.c:350-480 | the answer to each kind of request the program knows, for every size of the result buffer, and -2 exactly for those it does not know |
| `Memory.Memory.CleanAlternate` | memory.c:483-492 | all overrides are gone and nothing else changes |
| `Memory.Memory.PutRegStr` | memory.c:1986-2036 | one user register or one override is written, or nothing |
| `Memory.Memory.PutRegStr32` | memory.c:2038-2108 | low word to the address, high word to the next slot, or nothing |
| `Memory.Memory.GetRegStr` | memory.c:1748-1835 | the value of a register, signed or not, with its override unless the original is asked for |
| `Memory.Memory.GetRegStr32` | memory.c:1872-1983 | two registers as one number, from the overrides only if both have one |
| `TableWrites.GetUser` | memory.c:1748-1795 | a user register gives its value in the range of its sign |
| `TableWrites.GetRegister` | memory.c:1797-1835 | a register of the controller gives its override, or its value if it has none or the original is asked for, in the range of its sign |
| `TableWrites.GetNothing` | memory.c:1748-1835 | there is no number if and only if the address has no register |
| `TableWrites.PutGetUser` | memory.c:1986-2036 | a number put to a user register is read back modulo 0x10000, with its sign; nothing else reads differently |
| `TableWrites.PutGetRegister` | memory.c:1986-2036 | so is one put to a register of the controller, until the original is asked for |
| `TableWrites.PutRefused` | memory.c:1986-2036 | it is refused, and nothing changes, if and only if it is no number or there is no such register |
| `TableWrites.Get32Register` | memory.c:1925-1983 | two registers of the controller as one number, high word from the second, overrides only if both have one, signed if either is |
| `TableWrites.Get32Back` | memory.c:1925-1983 | a number whose halves the controller has in two registers is read as it is, or modulo 2^32, also when only one of them has an override |
| `TableWrites.Get32User` | memory.c:1878-1923 | two user registers as one number, signed if the second is |
| `TableWrites.Get32Nothing` | memory.c:1872-1983 | there is none if and only if one of the two addresses has no register |
| `TableWrites.Put32Refused` | memory.c:2038-2108 | exactly when a 32-bit number is refused |
| `Table.Pigeonhole` | memory.c:1446-1481 | strictly increasing addresses: no more of them in a range than the range is wide |
| `TableProofs.RangeIsFilter` | memory.c:1446-1481 | for every start in the table, or 0, and every end: a range read gives exactly the registers in use with an address in the range, in address order |
| `TableProofs.CoilRangeIsFilter` | memory.c:1550-1578 | a range read of coils gives exactly the coils in use with an address in the range |
| `TableProofs.DiscRangeIsFilterIff` | memory.c:1615-1644 | one of discrete inputs does if and only if no value in the range is beyond the end address and the value of the first input behind it is |
| `TableProofs.DiscRangeToTheLast` | memory.c:1615-1644 | for an end of at least 0xFF: if and only if no input in use lies beyond the end |
| `TableProofs.DiscreteCountIff` | memory.c:441-454 | the answer about the input at 0x2000 has as many bytes as it announces, one, if and only if no input in use has a greater address |
| `TableProofs.UserRangeIsRun` | memory.c:1520-1548 | the user registers in a range are one contiguous run of the list |
| `TableProofs.UserRangeSavedBack` | memory.c:221-250 | what was read from one list, saved under the first address, lands on exactly those addresses of another |
| `TableProofs.UserCoilRangeSavedBack` | memory.c:267-296 | the same for user coils |
| `TableProofs.NextPlace` | memory.c:612-631 | an address and the one after it, both in the table, are neighbours |
| `TableProofs.Put32Get32` | memory.c:1872-2108 | a 32-bit number written to two neighbouring controller registers is read back, as it is on signed registers and modulo 2^32 on others; the originals stay readable and no third register changes |
| `TableProofs.PutUser32Get32` | memory.c:2038-2108 | on user registers it is read back if and only if the next address is configured; otherwise the next entry has lost its value |
| `TableProofs.PutUser32Lost` | memory.c:2038-2108 | with user registers at 0x4000 and 0x4002 a number put at 0x4000 is lost and the other register overwritten |
| `TableProofs.CachedReply` | memory.c:101-119 | after a response that covers the registers of a known request was saved, the stored answer is that response without its check value if and only if every override in the range repeats the controller's value; otherwise it differs exactly at the other overridden registers; a response without a header is not answered |
| `Overlay.ShareIs` | memory.c:101-119 | writing to consecutive slots gives each address the word of its rank among the addresses of the table |
| `Overlay.OverlayRefined` | memory.c:68-348 | after every run of saves, responses, overrides and cleans: a read without overrides gives the latest value of the controller, a read with them the latest override since the last clean or else that value |
| `Replication.RegsSaved` | tracerclient.c:966-986 | a range of registers, sent and saved, makes two equally configured tables agree on exactly that range |
| `Replication.HeadersSaved` | tracerclient.c:1018-1045 | so does the loop over all headers |
| `Replication.OverridesSaved` | tracerclient.c:1067-1085 | so does the loop over overrides, one command for each |
| `Replication.DiscInpsSaved` | tracerclient.c:1002-1014 | and the discrete inputs that were read |
| `Replication.PartsReplicated` | tracerclient.c:933-1127 | whatever parts are sent, one after the other: a server with the same addresses ends with the client's values in exactly the entries sent and its own everywhere else |
| `Replication.CommandsConcat` | tracerclient.c:933-1127 | parts sent in several calls make the same commands as all of them in one |
| `Replication.EntrySent` | tracerclient.c:933-1127 | the entries of a run are those of its parts |
| `SentEntries.SentIff` | tracerclient.c:933-1127 | for every memtype: a call sends exactly the entries of the kinds that its number names, written out, with an address in the range that the table has |
| `SentEntries.MergedIs` | tracerclient.c:933-1127 | taking entries over, field by field: value, override with its flag, header with its flag, cells, user entries and the two blocks |
| `TracerClient.TracerClient.AddPart` | tracerclient.c:936-1127 | one case of the switch adds exactly the commands of its part of the table |
| `TracerClient.TracerClient.SendMem` | tracerclient.c:933-1164 | the commands of the parts are added to the open frame; when it is sent, the frame of everything added so far goes out, unless it is longer than the send buffer, and a new one is begun |
| `Server.Server.Drain` | server.c:257-281 | the commands from slot 0 to the first free slot are saved in order, empty ones passed over, and their slots freed |
| `Server.Server.Action` | server.c:243-289 | decoder and table after the loop are those at the end of its course, in which each turn begins where the last returned number points and saves all that is then held, for every receive buffer |
| `Server.OneCourse` | server.c:243-289 | the loop has one course only |
| `ServerProofs.SavedTwice` | memory.c:168-348 | saving the same commands once more leaves the table as it is |
| `ServerProofs.OneFrameServed` | server.c:243-289 | a buffer with one frame, after any noise without DLE: all its commands are saved and the decoder is empty again |
| `ServerProofs.ServeFrame` | server.c:243-289 | the same as an effect of `Action` |
| `ServerProofs.EqualFramesServed` | server.c:252-256 | over frames of one length L the places visited are 0 and then L to the last turn, and the table is the one with the first two saved |
| `ServerProofs.EveryFrameBegunIff` | server.c:252-256 | a turn begins at every frame if and only if there are at most two |
| `ServerProofs.ThirdFrameLost` | server.c:252-256 | three frames after which the table is not the one with all three saved |
| `ServerProofs.TwoFramesTurns` | server.c:252-256 | the first two turns only: two frames of any length are both saved, and the place is then the length of the second, not the end of it |
| `TwoFrames.FirstPassed` | mttp.c:280-453 | a scan that begins anywhere in the first of two frames, behind its header: the second frame's commands go into the slots from the number of commands closed on the way on, as many as fit, and it ends behind the frame or at the first that does not fit |
| `TwoFrames.SecondPassed` | mttp.c:280-453 | a scan that begins in the second, behind its first byte: nothing is stored unless the length bytes read as a start mark, and it ends at the end of the message, or at a mark that the length bytes open |
| `TwoFrames.WalkSaved` | memory.c:168-348 | saved commands that are saved again in steps of at most one forward, and any number back, up to the last leave the table as it is |
| `TwoFrames.TwoFramesServed` | server.c:243-289 | the whole course of the loop over two frames without DLE in addresses and payloads: from the second turn to the last the table is the one with both saved in order; lengths and numbers of commands are free but for one family |
| `TwoFramesLost.SecondFrameLost` | server.c:252-256 | two frames, one with an escaped DLE, after which the older value of the second device information is in the table |
| `TwoFramesLost.LongAllowed` | server.c:252-256 | two frames of 51 commands together that only have the length 0x1004 against them |
| `TwoFramesLost.LongFrameLost` | server.c:252-256 | after them the older value is in the table as well |
| `ServerProofs.PartsTakeable` | tracerclient.c:933-1127 | any parts of at most fifty commands make a frame that decoder and table of the server can take, and saving them gives the merged table |
| `ServerProofs.Deliver` | tracerclient.c:933-1164 | calls of `SendMem`, their frame, and the server's loop over it: the server's table is, field by field, as it was but for exactly the entries one of the calls names, which are as the client has them |
| `HexTunnel.Hex2Back` | display.c:119-123 | two printed hex digits are read back as the byte |
| `HexTunnel.RequestBack` | mtcpserver.c:781-800 | printed digits are parsed as the bytes they were printed from |
| `HexTunnel.ReplyBack` | display.c:150-166 | also in the display's loop, whatever single character follows |
| `HexTunnel.AnglesOut` | display.c:136-143 | removing the brackets from the printed groups leaves the digits |
| `HexTunnel.RequestIff` | mtcpserver.c:781-800 | a text is a request if and only if every group of two characters is a number, and then byte k is that of group k |
| `HexTunnel.ReplyAt` | display.c:150-166 | in an answer byte k is that of group k, or the byte before it once more if the group is no number |
| `HexTunnel.DigitsAre` | display.c:119-123 | digits are printed as capitals and read as either |
| `HexTunnel.Stoi16Is` | mtcpserver.c:786-792 | which two characters are a number, and which |
| `HexTunnel.FieldsAre` | mtcpserver.c:1117-1130 | the pieces have no blanks and, with one between each two, are the line |
| `MtcpServer.LineEndAsks` | mtcpserver.c:288-299 | a line end behind the digits changes nothing |
| `MtcpServer.MtcpClientHandle.Split` | mtcpserver.c:1117-1130 | the pieces between blanks |
| `MtcpServer.MtcpClientHandle.HandleCommand` | mtcpserver.c:765-826 | the parsed request is sent once and the answer printed; a missing or malformed one gives its error text and sends nothing |
| `MtcpServer.CommandAsks` | display.c:115-123 | the line the display writes asks for exactly the bytes of its request |
| `Display.Display.Forward` | display.c:102-172 | the answer of the controller, whatever it is, reaches the reply buffer unchanged, directly or as text |
| `Display.Display.Answer` | display.c:93-180 | a request the table does not know: the controller's line gets the very frame the display sent and the display's line the very frame the controller sent, or nothing; a known one gets what the table has to say, registers, device information, inputs or nothing for the ignored switch-off, and is not sent on |
| `Answers.StoredAnswers` | memory.c:350-480 | the ten requests that are answered from the table, byte by byte, each with its answer: the blocks, the header and the registers of the six ranges with their overrides, the inputs from 0x2000 on, nothing; and no other request is |
| `Answers.PolledInfoAnswered` | memory.c:75-96 | a device information response that was polled is what the request for that block is answered with |
| `Display.AnswerRead` | display.c:133-166 | the text of an answer has at most 1021 characters, fits the buffer and is read back |
| `Display.CachedFrame` | memory.c:350-439 | a stored answer, framed anew, is the controller's own frame, check value included, if and only if every override in the range repeats the controller's value |
| `ModbusServer.ModbusServer.Process` | modbusserver.c:195-273 | exactly one frame is sent for every request of at least 12 bytes, read off its bytes: with function 4, up to 100 registers and a known start it repeats bytes 0-3 and 6 and has the registers from the address in bytes 8-9 over as many addresses as bytes 10-11 say, with overrides; otherwise it is the error |
| `ModbusServer.AtMostNumber` | modbusserver.c:228-243 | a range read has at most as many registers as were asked for, except when no registers are asked for from address 0, which means all there are |
| `ModbusServer.ExactlyNumber` | modbusserver.c:228-243 | for every number and every start but the exception: as many registers as were asked for if and only if a register in use has each address asked for; so never for a range that runs past the last address |
| `ModbusServer.OneOfTwo` | modbusserver.c:228-243 | two registers from 0x3008 on, of the table as it is set up: one is answered |
| `ModbusServer.NotServed` | modbusserver.c:226-243 | a request with function 4 and a permitted number fails if and only if its start is not in the table, or it asks for 0 registers from address 0 of a table with more than 100 |
| `ModbusServer.AnswerConsistent` | modbusserver.c:218-256 | byte count, length field and bytes sent agree, at most 209 bytes; the data are the registers of the range in address order |

## Left out

- Modbus.Modbus.Receive: errors of select and read, which end the call, are not modelled; a pause is a number of microseconds, and a write takes any positive number of bytes.
- Server.Server.Action: takes it for granted that payloads fit the command buffer and start addresses are in the table, at every turn.
- Server.Server.Drain: takes the same for granted of the commands held.
- TwoFrames.TwoFramesServed: says nothing about two frames of different lengths with a DLE in an address or payload, nor about the one family of lengths; there the outcome depends on the values, and an example of a loss is given for each.
- Three or more frames of different lengths in one buffer: proved is what each turn does (`Server.Server.Action`), not where they all lead.
- Display.Display.Answer: the text of an answer is received in one piece, and error texts of the other machine are not put through it.
- TracerClient.TracerClient.SendMem: takes it for granted that overrides are asked for from a known address on (the source reads in front of its array otherwise), that unused slots carry none (it sends bytes it never set otherwise), and that a single header is asked of a table with a register in it.
- TracerClient.TracerClient.AddPart: takes the same for granted.
- Memory.Memory.Save: the start address of registers, coils, inputs, headers and overrides must be in the table; with any other the source writes in front of its arrays.
- Memory.Memory.PutRegStr32: the register found must not be in the last slot; the source writes behind its array otherwise.
- Memory.Memory.SaveResponse: the data must fit the table from its start address on; the source does not look.
- Mttp.Mttp.AddMessage: the 500 bytes of a payload array are a growing sequence here, so writing past its end is not modelled.
- Memory.Memory.ReadConfig: lines come as what the program makes of them; splitting a line into name and value, and user switches, are not modelled, and `std::sort` is an insertion sort.
- Sockets, serial setup, reconnecting, sleeps, signals, threads and locks: each operation is one step.
- Names and descriptions of registers, the debug and list texts, `PrintHelp` and logging: text with nothing to prove.
- `Switch`, `PutCoilStr`, `GetCoilStr` and the other commands of the text port: single look-ups like those that are modelled.
- Polling the controller from tracerclient.c: each poll is a `SendRequest` and a `SaveResponse`, both modelled.
- Converting values to text and back with `std::to_string` and `std::stoi`: numbers stand for texts.
