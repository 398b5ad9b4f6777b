# 28C256 EEPROM programmer — a Dafny model

The system programs a 28C256 parallel EEPROM (32 KiB, addresses 0x0000 to
0x7fff) through an Arduino. Two parts of it are modelled here:

- the host-side programmer, `EEPROM_programmer`, which talks to the Arduino
  over a serial line in a small text protocol. It reads chunks
  (`R, <addr>, <size>`, answered by comma-separated hex values) and writes
  chunks (`W, <addr>, <size>, <b0>, …`, acknowledged by `OE`). It validates
  addresses, byte values and chunk sizes. On top of these it builds three
  bulk operations: filling the whole chip with one byte, dumping the whole
  chip 16 bytes at a time, and programming a binary file in 256-byte
  chunks. The fill and the file programming read everything back and
  compare it with what was written;
- the firmware's driver class `EEPROM_28C256`. It shifts a 15-bit address
  out to two 8-bit shift registers (high byte first). It drives or samples
  the eight data pins, bit i on pin IOROM[i]. It sequences the active-low
  OE, CE and WE lines.

Module layout:

| file | module | what it holds |
|---|---|---|
| common.dfy | `Common` | `Byte`, `Option`, powers of two, small sequence facts |
| text.dfy | `Text` | Python's `str.split` and `str.strip`, with their round trip |
| hex.dfy | `HexText` | Python's `hex()` and `int(s, 16)`, with their round trip |
| validate.dfy | `Validate` | the address, data and chunk-size checks; the error cases |
| protocol.dfy | `Protocol` | request wording, reply parsing, and a reference decoder for requests |
| device.dfy | `Device` | a reference device for the far end of the link: a 32 KiB memory answering requests |
| chunking.dfy | `Chunking` | the split of a file into 256-byte chunks, as written and as intended |
| bulk.dfy | `Bulk` | specifications of the bulk operations: exchange logs, plans, coverage |
| replay.dfy | `Replay` | the serial link as a function of the device's memory, faithful logs, and what they determine |
| programmer.dfy | `Programmer` | the class `Programmer`: every host operation, with the serial link as a field |
| eeprom.dfy | `Eeprom` | the class `Eeprom28C256`: pin directions, pin levels, control lines and address latches |

The serial link is modelled as a field `link` of `Programmer`, of type
`Replay.Link`: a function from the device's memory and a request line to the
new memory and the reply line. Every exchange is appended to the field
`log`. Each host operation is specified twice:

- for an arbitrary link, by the exact sequence of exchanges it makes, and by
  the failure that stops it. A bulk operation stops at the first error, as
  the source's `Error()` does. The exchanges it logs are `Replay.Replayed`
  from the device it started on: each reply, and the memory after it, is
  what `link` gave for that request. So the log, the outcome and the final
  memory are fixed by the link and the starting memory (`Replay.RunDetermined`);
- for the reference device `Device.Serve`, by the memory the operation
  leaves behind and the data it returns.

Errors that the source reports through `Error()` and `exit()` are returned
here as `Fail(e)` or `Err(e)` values of the datatype `Validate.Error`.

The firmware driver keeps the pin directions in `mode` and the pin levels in
`io`, two arrays of eight booleans. Address bytes are computed with C's
truncating `%` and `/` on a 32-bit `long` and stored as a `byte`.

## Model

| member | source | states |
|---|---|---|
| Validate.CheckAddress | interface/programmer.py:30-32 | an address passes exactly when it lies in 0..0x7fff; otherwise the error names the address |
| Validate.CheckData | interface/programmer.py:34-36 | a data value passes exactly when it lies in 0..0xff; otherwise the error names the value |
| Validate.CheckChunkSize | interface/programmer.py:38-40 | a chunk size passes exactly when it lies in 0..256; otherwise the error names the size |
| Validate.CheckBytes | interface/programmer.py:70-71 | checking every element of a data vector passes exactly when all elements are bytes |
| Validate.CheckBytesFirstInvalid | interface/programmer.py:70-71 | the error reported is the first element out of range |
| Text.Split | interface/programmer.py:57 | `split` always yields at least one token |
| Text.JoinSplit | interface/programmer.py:57 | the tokens of a split contain no separator, and joining them with it gives the line back |
| Text.SplitJoin | interface/programmer.py:57 | splitting the join of separator-free tokens gives the tokens back |
| Text.Strip | interface/programmer.py:58 | stripping leaves no whitespace at either end, never lengthens, and keeps an already-trimmed string |
| Text.StripIsSlice | interface/programmer.py:58 | the stripped string is one contiguous slice of the original, and every character cut off either end is whitespace |
| Text.StripLeadingSpaces | interface/programmer.py:58 | the space after each comma of a reply is dropped before the value is read |
| HexText.DigitValue | interface/programmer.py:58 | exactly the characters 0-9, a-f and A-F are hex digits, and their value is below 16 |
| HexText.DigitValueExactly | interface/programmer.py:58 | a character has digit value d exactly when it is the lower-case or the upper-case numeral of d, so 'A'..'F' and 'a'..'f' are both 10..15 |
| HexText.HexDigits | interface/programmer.py:55 | `hex()` prints at least one digit and no leading zero |
| HexText.HexDigitsAreLower | interface/programmer.py:55 | `hex()` prints only lower-case hex digits |
| HexText.Hex | interface/programmer.py:55 | a non-negative number is printed as "0x" followed by at least one digit |
| HexText.DigitsValueOfHexDigits | interface/programmer.py:55-58 | the digits `hex()` prints read back as the number |
| HexText.HexRoundTrip | interface/programmer.py:55-58 | `int(s, 16)` of `hex(n)`, after any leading whitespace, is `n` |
| HexText.HexHasNoSeparator | interface/programmer.py:55-57 | a printed number holds no comma and no whitespace, so it survives splitting on commas |
| HexText.ParseHexIntStrips | interface/programmer.py:58 | `int(val, 16)` ignores whitespace around the token: stripping first parses to the same result |
| HexText.ParseHexIntPrefix | interface/programmer.py:58 | `int(val, 16)` reads a run of hex digits of either case as the number it denotes, with or without a "0x" or "0X" prefix |
| Protocol.ParseAll | interface/programmer.py:58 | parsing every token gives one value per token, or fails because some token is not a hex integer |
| Protocol.ParseReplyTokens | interface/programmer.py:56-58 | `read_chunk`'s reply parsing succeeds exactly when every comma-separated token is a hex integer, giving one value per token in order; otherwise the whole line is reported as malformed |
| Protocol.ReplyRoundTrip | interface/programmer.py:56-58 | a reply worded as the firmware words it parses back to exactly the values it lists |
| Protocol.EmptyReplyIsMalformed | interface/programmer.py:56-58 | an empty reply line (a timeout) is a malformed reply, not an empty chunk |
| Protocol.WriteRequestAsWritten | interface/programmer.py:70-75 | the request of `write_chunk` exists exactly when the data vector is non-empty |
| Protocol.WriteRequestSnoc | interface/programmer.py:72-74 | each pass of the inner loop appends the next byte's field to the request |
| Protocol.ReadRequestTokens | interface/programmer.py:55 | a read request splits into the command letter and the address and size fields |
| Protocol.WriteRequestTokens | interface/programmer.py:72-74 | a write request splits into the command letter, the address, the size and one field per byte |
| Protocol.DecodeReadRequest | interface/programmer.py:55 | a read request decodes, on the device side, to the address and size it was built from |
| Protocol.DecodeWriteRequest | interface/programmer.py:72-74 | a write request decodes, on the device side, to the address and bytes it was built from |
| Protocol.DecodeEncode | interface/programmer.py:52-75 | every request the programmer can send decodes back to itself: the wording is unambiguous |
| Device.Cells | interface/programmer.py:52-59 | a read of `size` cells yields `size` bytes |
| Device.Store | interface/programmer.py:65-79 | after a chunk is written, the chunk's cells hold its bytes in order and every other cell is unchanged |
| Device.CellsSplit | interface/programmer.py:99-107 | two consecutive reads give the same bytes as one read of both runs |
| Device.ServeWrite | interface/programmer.py:75-78 | the reference device stores a write request's bytes and acknowledges with "OE" |
| Device.ServeRead | interface/programmer.py:55-58 | the reference device answers a read request with a reply that parses to the cells read, memory unchanged |
| Device.ServeEmptyRead | interface/programmer.py:52-58 | the reference device answers a read of size 0 with an empty line, which the reply parser rejects as malformed; memory unchanged |
| Device.WriteReadRoundTrip | interface/programmer.py:65-95 | reading back a chunk just written on the reference device yields the chunk |
| Chunking.SplitIntoChunks | interface/programmer.py:184-192 | the split of a file, as intended, computed by its loop |
| Chunking.SplitAsWrittenFailsOnFullChunk | interface/programmer.py:189 | as written, the split raises for every file of 256 bytes or more |
| Chunking.SplitAsWrittenShortFile | interface/programmer.py:184-192 | as written, a file shorter than 256 bytes is split as intended |
| Chunking.ChunksFlatten | interface/programmer.py:184-192 | the chunks, concatenated, are the file: nothing lost, nothing reordered |
| Chunking.ChunkLayout | interface/programmer.py:184-192 | chunk i is bytes 256i to 256(i+1) of the file (the remainder for the last one), holds 1 to 256 bytes, and starts at offset 256i |
| Chunking.ThreeHundredBytes | interface/programmer.py:184-192 | a 300-byte file is one full chunk at 0 and a 44-byte chunk at 256 |
| Bulk.WriteThenVerify | interface/programmer.py:87-95 | a bulk operation writes every chunk in order and then reads every chunk back in order |
| Bulk.StepTaken | interface/programmer.py:87-95 | a step that passes extends the successful prefix; a step that fails ends the run with its error |
| Bulk.StepOutcomeCases | interface/programmer.py:77-78 | a write step passes exactly on the reply "OE" and otherwise reports that reply; a read-back passes exactly when the reply parses to the chunk's bytes, and otherwise reports a malformed reply or the chunk's address (lines 93-95) |
| Bulk.PassMeansVerified | interface/programmer.py:83-97 | a bulk operation that passes exchanged exactly two messages per chunk; each write was acknowledged "OE", and each read-back parsed to exactly the chunk's bytes |
| Bulk.PassMeansChecked | interface/programmer.py:83-97 | a bulk operation that passes had every chunk pass the address and size checks |
| Bulk.WrittenChecked | interface/programmer.py:87-95 | a chunk that was written passed its checks, so its read-back passes them too |
| Bulk.ToByteArray | interface/programmer.py:108 | `bytearray` succeeds exactly when every value is a byte, and keeps the values |
| Bulk.DumpAddressInRange | interface/programmer.py:101-103 | the dump reads 2048 chunks of 16 bytes, all inside the address space |
| Bulk.DumpCellsStep | interface/programmer.py:101-107 | each dump chunk continues the memory where the previous one stopped |
| Bulk.DumpExtended | interface/programmer.py:101-107 | a parsed dump chunk extends the dump by its values, in order |
| Bulk.DumpStopped | interface/programmer.py:101-103 | a dump chunk whose reply does not parse ends the dump with that error |
| Bulk.FillPlan | interface/programmer.py:86-89 | fill covers the address space in 128 chunks |
| Bulk.FillPlanChecked | interface/programmer.py:86-89 | every fill chunk is 256 bytes long and passes the address and size checks |
| Bulk.FillCoverage | interface/programmer.py:87-89 | after the fill writes, every cell of the chip holds the value and every cell outside it is unchanged |
| Bulk.FillReadBack | interface/programmer.py:91-95 | after the fill writes, reading any fill chunk yields 256 copies of the value |
| Bulk.ProgramPlan | interface/programmer.py:194-198 | the file programming writes one chunk per file chunk |
| Bulk.ChunkAtOffset | interface/programmer.py:194-198 | chunk k is written at the running address, which is the byte offset of chunk k in the file |
| Bulk.FlattenPrefix | interface/programmer.py:194-198 | the bytes before chunk k's address are exactly the first k chunks |
| Bulk.ProgramCoverage | interface/programmer.py:194-198 | after the file is written, cell a holds byte a of the file, and every other cell is unchanged |
| Bulk.ProgramReadBack | interface/programmer.py:200-210 | after the file is written, reading any chunk at its address yields the chunk |
| Bulk.ProgramPlanChecked | interface/programmer.py:184-198 | no file chunk is empty; for a file that fits the chip, every chunk passes the checks |
| Bulk.OversizedChunk | interface/programmer.py:194-198 | for a file larger than the chip, chunk 128 starts at 0x8000 and fails the address check |
| Bulk.OversizedFails | interface/programmer.py:184-210 | programming a file larger than the chip always ends in failure |
| Replay.ReplayedSent | interface/programmer.py:55-56 | a faithful log extended by one request and the link's reply to it is still faithful, ending at the memory the link left |
| Replay.ReplayedConcat | interface/programmer.py:83-97 | two faithful logs, the second starting where the first ended, make one faithful log: the write loop's log followed by the verify loop's |
| Replay.ReplayedPrefix | interface/programmer.py:83-97 | every prefix of a faithful log is faithful, up to the memory reached at that point |
| Replay.ReplyAt | interface/programmer.py:55-56 | in a faithful log, reply i is what the link answers request i from the memory the earlier requests left |
| Replay.RanShape | interface/programmer.py:87-95 | a run sends one request per step, in plan order, only for chunks that passed their checks, and every step but the last passed |
| Replay.RanStops | interface/programmer.py:87-95 | a run that stops before the plan's end stopped at a chunk failing its checks or at a step whose reply failed |
| Replay.SameRequestsSameReplies | interface/programmer.py:55-56 | two faithful logs from the same memory that send the same first k requests got the same first k replies |
| Replay.NotShorter | interface/programmer.py:87-95 | two faithful runs of one plan from the same memory cannot differ in length |
| Replay.SameExchanges | interface/programmer.py:83-97 | two faithful runs of one plan from the same memory made exactly the same exchanges, requests and replies |
| Replay.RanOutcome | interface/programmer.py:87-95 | a run's outcome is fixed by its log: the last reply's failure if a step failed, Pass if every step ran, otherwise the failed check of the next chunk |
| Replay.RunDetermined | interface/programmer.py:83-97 | a faithful run of a plan is unique: the link and the starting memory fix its log, its outcome and the memory it leaves |
| Replay.SucceededPrefix | interface/programmer.py:87-95 | every prefix of a successful run is successful |
| Replay.ServeStoresWrites | interface/programmer.py:75-78 | the reference device stores every checked write and acknowledges it with "OE" |
| Replay.SucceededWritesSent | interface/programmer.py:87-89 | the successful write steps of a run sent the plan's write requests, in order, for checked chunks |
| Replay.ServedWrites | interface/programmer.py:87-89 | over a device that stores checked writes, the writes sent so far left the memory with those chunks stored in plan order |
| Replay.ServedPlan | interface/programmer.py:87-89 | on the reference device, a write loop whose every write was acknowledged leaves the memory with the whole plan stored |
| Replay.UnacknowledgedWriteStops | interface/programmer.py:77-78 | a device that answers every request with the same line other than "OE" stops a bulk run after its first write, reporting that line |
| Replay.FillStopsOnBadChip | interface/programmer.py:87-89 | such a device makes `fill` stop after its first write with an unexpected-termination error naming the reply |
| Programmer.WriteCheck | interface/programmer.py:66-71 | `write_chunk`'s checks pass exactly when the address and size are valid, the length matches the size and every element is a byte |
| Programmer.WriteCheckOfChunk | interface/programmer.py:66-71 | for a chunk of bytes, `write_chunk`'s checks are the ones `read_chunk` makes |
| Programmer.RequestText | interface/programmer.py:72-74 | the inner loop builds the write request: the head, then one field per byte in order |
| Programmer.BuildWriteRequest | interface/programmer.py:70-74 | the outer loop reports the first invalid element; otherwise it yields the request as written, none for empty data |
| Programmer.Programmer.constructor | interface/programmer.py:25-28 | a programmer records its port, baud rate and timeout, and has exchanged nothing yet |
| Programmer.Programmer.Transfer | interface/programmer.py:55-56 | one request is sent and one reply line is read; the log grows by that exchange |
| Programmer.Programmer.ReadChunk | interface/programmer.py:52-59 | a bad address or size sends nothing and reports it; otherwise one read request is sent and its reply is parsed; on the reference device the result is the cells read, memory unchanged, and a read of size 0 ends in a malformed reply |
| Programmer.Programmer.ReadFromAddress | interface/programmer.py:61-62 | a read of one cell; on the reference device it yields that cell |
| Programmer.Programmer.WriteChunk | interface/programmer.py:65-78 | the checks fail in the source's order with nothing sent; otherwise exactly one write request is sent, and only an "OE" reply passes; on the reference device the chunk is stored |
| Programmer.Programmer.WriteToAddress | interface/programmer.py:80-81 | a write of one cell; on the reference device exactly that cell changes |
| Programmer.Programmer.WriteStepAt | interface/programmer.py:87-89 | one chunk write extends the run of successful steps, or ends it with its error; the logged exchange is what the link answered, and the device is the memory it left |
| Programmer.Programmer.WriteAll | interface/programmer.py:87-89 | the chunks are written in order, and the first failure stops the loop; every logged reply is what the link answered, and the device is the memory it left; on the reference device the memory is the plan applied |
| Programmer.Programmer.VerifyChunkStep | interface/programmer.py:93-95 | one read-back is sent and judged against the chunk; on the reference device a chunk that is stored passes |
| Programmer.Programmer.VerifyAll | interface/programmer.py:91-95 | the chunks are read back in order and compared, and the first mismatch stops the loop; every logged reply is what the link answered; on the reference device a stored plan passes, memory unchanged |
| Programmer.Programmer.Fill | interface/programmer.py:83-97 | an invalid value sends nothing; otherwise the write-then-verify run of the fill plan happens, its log replayed from the link and the starting memory; on the reference device it passes and every cell of the chip holds the value |
| Programmer.Programmer.DumpRead | interface/programmer.py:101-103 | dump read k asks for 16 bytes at 16k and logs the link's answer; its values extend the dump, or its error ends it |
| Programmer.Programmer.MemoryDump | interface/programmer.py:99-108 | the dump reads the 2048 chunks in address order and concatenates the values the link answered, stopping at the first bad reply; on the reference device it returns the whole memory, unchanged |
| Programmer.Programmer.ProgramFile | interface/programmer.py:184-210 | the file's chunks are written from address 0 and then verified, the first failure stopping it, its log replayed from the link and the starting memory; a file larger than the chip fails; on the reference device a file that fits is stored at addresses 0.., every other cell unchanged |
| Programmer.Append | interface/programmer.py:106-107 | the dump grows by the chunk's values, in order |
| Programmer.PlaceChunks | interface/programmer.py:194-198 | chunk i is written at the running address, the sum of the lengths before it |
| Eeprom.CRem | firmware/myEEPROM.h:40 | C's `%` keeps the dividend's sign, is below the divisor in size, agrees with the mathematical remainder for non-negative dividends, and completes C's division identity a == (a / b) * b + a % b |
| Eeprom.CDiv | firmware/myEEPROM.h:41 | C's `/` truncates toward zero: the quotient rounds down for a non-negative dividend and up for a negative one |
| Eeprom.LowByte | firmware/myEEPROM.h:40 | the low byte `set_address` stores is the address modulo 256, in 0..255, negative addresses included |
| Eeprom.HighByte | firmware/myEEPROM.h:41 | the high byte `set_address` stores is the address divided by 256, rounded down, modulo 256 |
| Eeprom.Latched | firmware/myEEPROM.h:39-46 | the two latched bytes form a 16-bit address |
| Eeprom.SplitJoin | firmware/myEEPROM.h:39-46 | the high and low bytes `set_address` shifts out recombine to the address, and the high byte fits the chip's 7 upper address lines |
| Eeprom.JoinSplit | firmware/myEEPROM.h:39-41 | any pair of register bytes is what `set_address` computes for the address they form |
| Eeprom.Bits | firmware/myEEPROM.h:101-107 | `write` drives one level per data pin |
| Eeprom.BitsValueBound | firmware/myEEPROM.h:72-76 | the value `read` assembles from k pins is below 2^k, so eight pins fit a byte |
| Eeprom.BitsRoundTrip | firmware/myEEPROM.h:101-107 | the levels of a number read back as that number, when it fits |
| Eeprom.ValueRoundTrip | firmware/myEEPROM.h:72-76 | writing out the value any pin levels stand for gives those levels back |
| Eeprom.ReadBackWritten | firmware/myEEPROM.h:62-119 | the value `read` assembles from the levels `write` drives for a byte is that byte |
| Eeprom.ShiftedBound | firmware/myEEPROM.h:101-107 | after the eight halvings of `write`'s loop nothing of the byte is left |
| Eeprom.BitsSnoc | firmware/myEEPROM.h:101-107 | each pass of `write`'s loop drives the parity of the remaining value onto the next pin |
| Eeprom.Eeprom28C256.constructor | firmware/myEEPROM.h:48-60 | the data pins start as inputs, and OE, WE and CE start HIGH, so the chip is idle |
| Eeprom.Eeprom28C256.SetIoOutput | firmware/myEEPROM.h:28-37 | every data pin takes the direction asked for and the flag records it; nothing else changes |
| Eeprom.Eeprom28C256.SetAddress | firmware/myEEPROM.h:39-46 | the registers latch the high and the low byte of the address; pins and control lines are unchanged |
| Eeprom.Eeprom28C256.Read | firmware/myEEPROM.h:62-83 | the pins end as inputs, the address is latched, and the result is the byte the pin levels encode, IOROM[7] most significant; CE and OE end HIGH |
| Eeprom.Eeprom28C256.ReadPins | firmware/myEEPROM.h:72-76 | `read`'s loop over IOROM[7] down to IOROM[0], doubling before each pin is added, yields the number the pin levels stand for, pin i weighing 2^i; the pins are only sampled |
| Eeprom.Eeprom28C256.Write | firmware/myEEPROM.h:85-119 | the pins end as outputs, the address is latched, and pin i carries bit i of the byte; WE and CE end HIGH and OE LOW |

## Left out

- Serial port opening and closing, `time.sleep`, progress bars and printing, the interactive menu, tab completion and file I/O are not modelled. The file's bytes and the dump's bytes are parameters and results.
- The `[2:-5]` slice that cuts Python's `str(bytes)` rendering down to the reply text is not modelled: the link returns the reply text itself.
- The firmware's main sketch, which decodes requests and answers them, is not part of this model. `Device.Serve` is a reference device that behaves as the programmer expects. The properties "on the reference device" hold under that assumption only.
- `Error()` prints, waits for the user and exits the process. Here it is a returned failure, and the caller stops at once, as the process would.
- `read_chunk` and `write_chunk` check only the start address and the size, and the model does the same; a chunk that starts inside the chip and runs past 0x7fff (for example a read of 256 bytes at 0x7fff) reaches the device, because `check_address` is applied to the start address only (interface/programmer.py:53-54, 66-67). The model follows the code.
- A read of size 0 passes the checks of `read_chunk` and sends "R, <addr>, 0x0", in the model as in the source; on the reference device it ends in a malformed reply (`Device.ServeEmptyRead`). A write of size 0, by contrast, sends nothing and passes.
- Programmer.Programmer.constructor: the default arguments of the Python constructor (port '/dev/ttyUSB0', 115200 baud, a 4-second timeout) are not modelled; the port, baud rate and timeout are always given.
- `read_chunk` does not check that the reply holds `size` values. The model follows the code: a short or long reply parses without error, and only the comparison in the verify loops notices it.
- HexText.ParseHexInt: Python's `int(s, 16)` also accepts a sign, underscores between digits and non-ASCII whitespace; those inputs are not modelled.
- `bytearray` raising for values above 255 is modelled as `Err(NotAByte)`.
- Programmer.Programmer.WriteAll, Programmer.Programmer.VerifyAll: these loops take any plan, where the source has two copies of each loop (fill and file). The two plans are `Bulk.FillPlan` and `Bulk.ProgramPlan`.
- Device.Cell: a cell never written reads as 0xff, the erased value. The chip's real erased state and its write cycle time are not modelled.
- Eeprom.Eeprom28C256.Read: the levels on the data pins come from the chip. Here they are the contents of `io`, whatever they are; which byte the chip puts there is not modelled.
- `pinMode` on the address and control pins, `shiftOut`'s clocking, `digitalWrite(ORCLK, …)` and the `delayMicroseconds` timing are not modelled. The shift registers are modelled by the two bytes they latch.
- `write` is specified by the pin levels it leaves; the chip's storing of them when WE rises is not part of this model.

## Findings

| source | as written | input that shows it | evidently intended | confidence | as-written member | corrected member |
|---|---|---|---|---|---|---|
| interface/programmer.py:189 | `data[i*MAX_CHUNK_SIZE, (i+1)*MAX_CHUNK_SIZE]` subscripts a list with a tuple, which raises `TypeError` | any file of 256 bytes or more, e.g. 300 bytes | the slice `data[i*256:(i+1)*256]`, giving a full chunk | not executed | Chunking.SplitAsWrittenFailsOnFullChunk | Chunking.ChunksFlatten |
| interface/programmer.py:70-75 | `string` is assigned only inside the loop over `data`, so an empty chunk reaches line 75 with `string` unbound and raises `UnboundLocalError` | `write_chunk(0, 0, [])` | an empty chunk is a no-op that passes | not executed | Protocol.WriteRequestAsWritten | Programmer.Programmer.WriteChunk |
