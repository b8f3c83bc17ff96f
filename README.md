# micronucleus, modelled in Dafny

micronucleus is a USB bootloader for small AVR microcontrollers. The
firmware sits at the top of flash. A host tool talks to it through vendor
control requests: it reads the device's geometry, erases the application,
writes the new one page by page and starts it. The firmware keeps the
application's reset and USB interrupt vectors aside, puts jumps to itself
in their place, and reaches the application through a "tiny table" just
below the bootloader. The repository also holds several Intel HEX readers,
the upload tools written in C, Ruby and Python, an in-place bootloader
upgrader and a few helper scripts.

This project models the sequential core of all of these and proves
properties of the model. Each module is one file. It models one source
file, or the copies of one piece of code kept in several files:

- `Common`, `IntelHex`, `Spm`: shared vocabulary; Intel HEX records as the format writes them; the self-programming operations (functions and lemmas)
- `RubyHex`: `HexProgram` in ruby/micronucleus.rb, upgrade/hexprogram.rb and firmware/upload.rb (class over a map)
- `RubyUpload`: `Micronucleus` (ruby/micronucleus.rb) and `MicroBoot` (firmware/upload.rb) (class over a recording transport)
- `MnflashIhex`, `LoadRaw`, `FirmwareBlob`, `MnflashFirmware`, `MnflashUploader`: the mnflash tool: load-ihex.c, lib/load-raw.c, firmware-blob.c, firmware.c, lib/uploader.c (methods with loops over arrays and blobs)
- `CmdlineHex`, `HidUpload`: commandline/micronucleus.c and the HID uploader of commandline/main.c (methods with loops over arrays)
- `LibSession`: commandline/library/micronucleus_lib.c (class over a recording libusb handle)
- `PyIhex`, `GenData`, `CalcSize`: upgrade/generate-data.py, upgrade/generate-data.rb, firmware/CalculateSize.py (classes and loops, as the scripts are written)
- `FirmwareMain`, `FirmwareBoot`, `UsbDriver`, `Upgrade`, `UnUsb`: firmware/main.c (V2), firmware/bootloader.c (V1), firmware/usbdrv/usbdrv.c, firmware/upgrade.c, examples/import/unusb.hpp (classes whose fields are the registers and globals)

Code that changes state step by step is a class or a method with loops.
Each such method is proved against a specification function, and the
lemmas are stated about that function. Writes to flash are not applied to a
stored image. Instead the model keeps the list of `boot_page_erase`, `boot_page_fill` and
`boot_page_write` operations in the order they are issued. The host
tools talk to recording mocks of libusb and of the device. In those
mocks every control transfer, open, close and sleep becomes an event in
a log, and the device's answers are fixed inputs. Where the code and its
evident intent disagree, both readings are modelled side by side. A
`Variant` parameter, or a separate as-written definition, selects the
reading; see "## Findings".


## Model

| member | source | states |
|---|---|---|
| CalcSize.WordLength | firmware/CalculateSize.py:16 | the first word of a line ends at the first white-space character or at the end, and holds no white space |
| CalcSize.SplitWords | firmware/CalculateSize.py:16 | every word `split()` yields is non-empty and free of white space |
| CalcSize.ScanReport | firmware/CalculateSize.py:13-21 | the loop leaves `codesize` at the count of the last "Total" line whose second word parses, 0 without one (CodeSize) |
| CalcSize.LastTotalWins | firmware/CalculateSize.py:15-21 | a later "Total" line overrides earlier ones: the count is that of the last line giving one |
| CalcSize.NoTotalNoReport | firmware/CalculateSize.py:13-25 | with no line giving a count, `codesize` stays 0 and the script reports that none was found |
| CalcSize.LaterLinesIgnored | firmware/CalculateSize.py:15-21 | lines that give no count, appended at the end, leave the count unchanged (malformed lines are caught by the bare `except`) |
| CalcSize.PyCeilDiv | firmware/CalculateSize.py:7 | `math.ceil(a / b)`: the least q with q * b >= a |
| CalcSize.MnSizeLayout | firmware/CalculateSize.py:6-9 | the bootloader takes as few whole pages as hold the code, starts that many pages below the end of memory, and the free space is that start less the 6-byte postscript; a positive size takes at least one page |
| CalcSize.Script | firmware/CalculateSize.py:13-30 | the script reports nothing when the count is 0, otherwise the layouts for 64-byte pages in 8 KiB and 128-byte pages in 16 KiB (Report) |
| FirmwareBlob.AllocFor | mnflash/firmware-blob.c:59 | the new allocation is a multiple of 4096 strictly above `address` and at most 4096 beyond it |
| FirmwareBlob.Resized | mnflash/firmware-blob.c:57-76 | a blob already covering `address` is kept; otherwise an allocation over 4 MiB frees the data (NULL), and any other grows it to that allocation, keeping the old bytes and filling the new ones with 0xFF |
| FirmwareBlob.ResizeCovers | mnflash/firmware-blob.c:57-76 | after a resize the data is NULL exactly when the 4 MiB limit was hit, and otherwise holds every index below `address` |
| FirmwareBlob.ResizeIdempotent | mnflash/firmware-blob.c:58 | resizing again to the same address changes nothing |
| FirmwareBlob.Blob.constructor | mnflash/firmware-blob.c:33-42 | `firmware_blob_new` returns the zeroed blob |
| FirmwareBlob.Blob.Resize | mnflash/firmware-blob.c:57-76 | the method leaves data and size as Resized gives them and the other fields unchanged |
| Spm.Fills | firmware/upgrade.c:58-66 | one `boot_page_fill` per word, word i at `address + 2 * i` |
| Spm.FillsConcat | firmware/upgrade.c:62-65 | filling two runs of words in turn is filling their concatenation |
| Spm.ErasedDown | firmware/bootloader.c:331-337 | the erases of pages n - 1 down to k, one per page |
| Spm.ErasedDownPages | firmware/bootloader.c:331-337 | the i-th erase is of page n - 1 - i: the pages are erased top down |
| Spm.Addr2Rjmp | firmware/bootloader.c:366-369 | the encoded jump is an rjmp opcode (0xC000 to 0xCFFF) |
| Spm.RjmpTarget | firmware/upgrade.c:84-85 | an rjmp built by `addr2rjmp` lands on `addr` modulo 4096 words, and exactly on it when the forward distance fits 12 bits |
| IntelHex.RecordBytes | mnflash/load-ihex.c:131-138 | a record spells out its data length plus 5 bytes: length, address high and low, type, data, checksum |
| IntelHex.RecordIsHexOfBytes | mnflash/load-ihex.c:110-138 | a record is ':' followed by the two-digit spelling of each of its bytes in turn |
| IntelHex.RecordSum | mnflash/load-ihex.c:131-138 | the byte sum the checksum loop adds up is length + address bytes + type + data + checksum |
| IntelHex.ChecksumZeroesSum | mnflash/load-ihex.c:140-148 | the byte sum of a record is 0 modulo 256 exactly when its checksum byte is the format's checksum |
| IntelHex.Complement | mnflash/load-ihex.c:140-142 | the only byte that brings a sum to 0 modulo 256 is the two's complement of its low byte |
| IntelHex.HexOfAt | mnflash/load-ihex.c:131-133 | byte j of a spelled-out sequence sits at characters 2j and 2j + 1 |
| MnflashIhex.Char2Nibble | mnflash/load-ihex.c:34-48 | a hexadecimal digit of either case gives its value, anything else -1 |
| MnflashIhex.Hex2Byte | mnflash/load-ihex.c:50-59 | two characters parse exactly when both are hexadecimal digits, to 16 times the first plus the second |
| MnflashIhex.Hex2Word | mnflash/load-ihex.c:61-70 | hex2word as intended: succeeds exactly when both bytes parse, the first being the high byte |
| MnflashIhex.Hex2WordAsWritten | mnflash/load-ihex.c:61-70 | hex2word as written always returns 1; where both bytes parse its word is the intended one |
| MnflashIhex.Hex2WordAcceptsNonDigits | mnflash/load-ihex.c:65 | a field that is not hexadecimal is accepted as written and refused as intended |
| MnflashIhex.ReadWord | mnflash/load-ihex.c:151-154 | a `hex2word` call with its `<= 0` test: as written it never takes the error branch, as intended only when the word parses, and a parsed word reads the same under both |
| MnflashIhex.CChomp | mnflash/load-ihex.c:94-103 | the chomp removes at most two characters and only from the end |
| MnflashIhex.ReadBytes | mnflash/load-ihex.c:131-138 | a successful read of n bytes yields n bytes |
| MnflashIhex.ReadBytesFails | mnflash/load-ihex.c:133-136 | one byte that does not parse makes the whole read fail |
| MnflashIhex.SumLsb | mnflash/load-ihex.c:140-142 | `sum_lsb` is 0 exactly when the byte sum is 0 modulo 256 |
| MnflashIhex.ParseHeader | mnflash/load-ihex.c:105-159 | a header that is accepted comes from a line that starts with ':' and holds at least 9 + length characters |
| MnflashIhex.LoadData | mnflash/load-ihex.c:162-184 | a data record keeps the blob sound (its size matches its data, start and end within it) |
| MnflashIhex.LinearEntry | mnflash/load-ihex.c:229 | the start linear address is `segment * 65536 + offset` while the shift stays in the positive 32-bit range |
| MnflashIhex.ApplyRecord | mnflash/load-ihex.c:161-240 | each record type keeps the blob sound |
| MnflashIhex.StepLine | mnflash/load-ihex.c:86-244 | one line keeps the blob sound |
| MnflashIhex.PieceLength | mnflash/load-ihex.c:76-86 | an `fgets` piece is at most 255 characters and does not run past the file |
| MnflashIhex.Pieces | mnflash/load-ihex.c:86 | every piece `fgets` returns holds from 1 to 255 characters |
| MnflashIhex.PiecesJoin | mnflash/load-ihex.c:86 | the pieces, joined again, are the whole file |
| MnflashIhex.PiecesEnd | mnflash/load-ihex.c:76-86 | every piece but the last ends in a newline or is 255 characters long |
| MnflashIhex.PieceLengthStops | mnflash/load-ihex.c:86 | a piece ends at the end of the file, at 255 characters or right after a newline, and holds no earlier newline |
| MnflashIhex.PieceToNewline | mnflash/load-ihex.c:86 | a piece runs exactly to the first newline when that lies within 255 characters |
| MnflashIhex.PieceFull | mnflash/load-ihex.c:76-86 | without a newline in its first 254 characters, a long text gives a piece of 255 |
| MnflashIhex.LinePiece | mnflash/load-ihex.c:86 | a line of at most 255 characters ending in its only newline is read by one call |
| MnflashIhex.RecordPiece | mnflash/load-ihex.c:76-86 | a record of at most 121 data bytes is read by one `fgets` call |
| MnflashIhex.LongRecordRefused | mnflash/load-ihex.c:76-113 | a record of 122 to 255 data bytes is split by `fgets` and the load fails, whatever surrounds it |
| MnflashIhex.EncodedChars | mnflash/load-ihex.c:86-110 | a record line is ':' and digits up to its one newline, with no second ':' |
| MnflashIhex.IhexLoad | mnflash/load-ihex.c:72-253 | `ihex_load` returns NULL exactly when the load of the file's `fgets` pieces fails, and otherwise a new blob holding its result (Load) |
| MnflashIhex.LoadLine | mnflash/load-ihex.c:87-243 | the loop body changes the blob as StepLine says, or reports its error |
| MnflashIhex.ReadHeader | mnflash/load-ihex.c:105-159 | the header checks give ParseHeader's result |
| MnflashIhex.ApplyTo | mnflash/load-ihex.c:161-240 | the switch changes the blob as ApplyRecord says, or reports its error |
| MnflashIhex.SumLine | mnflash/load-ihex.c:126-149 | the checksum loop gives CheckLine's result |
| MnflashIhex.CopyBytes | mnflash/load-ihex.c:177-180 | the data loop writes the copied bytes and changes no other field |
| MnflashIhex.Hex2ByteOfByteHex | mnflash/load-ihex.c:50-59 | the two digits the format writes for a byte read back as that byte |
| MnflashIhex.HeaderOfRecord | mnflash/load-ihex.c:105-159 | on a record the format writes, the checksum is enforced at the exact length; with one character more it is never looked at |
| MnflashIhex.CopyOfRecord | mnflash/load-ihex.c:177-180 | every data byte lands at its address and nothing else moves |
| MnflashIhex.StepRecordLine | mnflash/load-ihex.c:86-244 | a record line is refused for a wrong checksum at the exact length, and otherwise acts by its type |
| MnflashIhex.EncodedStep | mnflash/load-ihex.c:86-244 | a record the format writes passes the header and acts by its type |
| MnflashIhex.DataByteAt | mnflash/load-ihex.c:178 | data byte i of a record line sits at characters 9 + 2i and 10 + 2i |
| MnflashIhex.ChecksumEnforced | mnflash/load-ihex.c:126-148 | a record whose checksum is not the format's is refused |
| MnflashIhex.SameDataSameLoad | mnflash/load-ihex.c:162-184 | two lines that spell the same data bytes load the same |
| MnflashIhex.ChecksumSkippedAtOtherLengths | mnflash/load-ihex.c:126 | with one character more, any checksum byte loads the same as the right one |
| MnflashIhex.LoadDataOfRecord | mnflash/load-ihex.c:162-184 | a data record whose resize succeeds loads its bytes at its address |
| MnflashIhex.DataRecordLoads | mnflash/load-ihex.c:86-184 | a data record of at most 121 bytes always loads at its address, and the rest of the file then loads on top of that |
| MnflashIhex.UnknownTypeRejected | mnflash/load-ihex.c:236-238 | a record type above 5 fails the load |
| MnflashIhex.EndRecordSetsEntryOnce | mnflash/load-ihex.c:185-189 | the end-of-file record sets the entry point only when none was set before |
| MnflashIhex.ExtendedAddressIgnored | mnflash/load-ihex.c:190-223 | extended segment and extended linear address records leave the blob unchanged: the offset is local to the loop body (also line 92) |
| MnflashIhex.ExtendedApplied | mnflash/load-ihex.c:190-223 | types 2 and 4 with parsing segment bytes change nothing |
| MnflashIhex.ExtendedAddressDoesNotShift | mnflash/load-ihex.c:92 | the records after an extended address record load as if it were absent (also line 165) |
| MnflashIhex.MalformedLineAborts | mnflash/load-ihex.c:105-113 | a line shorter than 9 characters after the chomp, or not led by ':', fails the load |
| MnflashIhex.UnmarkedPieceAborts | mnflash/load-ihex.c:105-113 | a piece that does not start with ':' fails the load |
| MnflashIhex.LoadFirst | mnflash/load-ihex.c:86-244 | the load takes the first piece, stops on its error, and goes on with the others |
| MnflashIhex.UnparsedAddress | mnflash/load-ihex.c:65 | a header whose address is not hexadecimal is accepted as written, with the stale bytes as its address, and refused as intended (also lines 151-154) |
| MnflashIhex.UnparsedAddressLoads | mnflash/load-ihex.c:65 | the file `:00ZZZZ01X` loads as written with the stale bytes as entry point, and fails as intended (also lines 124-126, 151-154, 185-189) |
| MnflashIhex.ReadingsAgree | mnflash/load-ihex.c:61-70 | where every address field parses, the two readings of hex2word load the same |
| MnflashIhex.ApplyAgrees | mnflash/load-ihex.c:193-228 | the switch is the same under both readings when the fields at 9 and 13 parse |
| LoadRaw.Overlay | mnflash/lib/load-raw.c:100 | `memcpy` keeps the length and the bytes before `at` and puts the chunk at `at` |
| LoadRaw.Step | mnflash/lib/load-raw.c:57-104 | a pass of the read loop that succeeds leaves the blob holding room for every byte read so far |
| LoadRaw.CheckTable | mnflash/lib/load-raw.c:66-98 | the check of the first chunk gives TableOk for the selected reading of the 16 KiB test |
| LoadRaw.Store | mnflash/lib/load-raw.c:100-103 | the chunk is laid over the data at `now`, `start` becomes 0 and `end` moves behind the chunk |
| LoadRaw.ReadChunk | mnflash/lib/load-raw.c:57-104 | one pass succeeds exactly when Step does, and then leaves Step's blob |
| LoadRaw.ReadRaw | mnflash/lib/load-raw.c:41-113 | `mnflash_raw_load` returns NULL exactly when RawLoad fails, and otherwise a new blob equal to RawLoad's |
| LoadRaw.ShortFileRefused | mnflash/lib/load-raw.c:68-71 | a first chunk shorter than 30 bytes is refused |
| LoadRaw.NoTableRefused | mnflash/lib/load-raw.c:73-96 | a first chunk that fails the vector check is refused, whatever follows |
| LoadRaw.EmptyFileLoads | mnflash/lib/load-raw.c:54-57 | an empty file loads as the empty blob (also lines 106-107) |
| LoadRaw.StepShape | mnflash/lib/load-raw.c:100-103 | one pass keeps `start` at 0, moves `end` behind the chunk and appends the chunk to the bytes read |
| LoadRaw.LoadFields | mnflash/lib/load-raw.c:57-105 | a successful load has `start` 0, `end` the number of bytes read, and room for them |
| LoadRaw.LoadBytes | mnflash/lib/load-raw.c:57-105 | the data of a successful load is the bytes read, in order |
| LoadRaw.SmallLoads | mnflash/lib/load-raw.c:57-105 | a file that passes the check and stays below 4 MiB loads |
| LoadRaw.StepSucceeds | mnflash/lib/load-raw.c:59-64 | a chunk that fits below 4 MiB and passes the check is stored (also line 100) |
| LoadRaw.LoadNext | mnflash/lib/load-raw.c:57-105 | after a stored chunk the loop goes on with the next one |
| LoadRaw.RawLoadResult | mnflash/lib/load-raw.c:41-107 | a file that passes the check and fits loads, and a loaded file holds exactly its bytes from address 0, with entry 0 |
| LoadRaw.RjmpBranch | mnflash/lib/load-raw.c:73-80 | when byte 3 is an rjmp high byte, the table passes exactly when every odd byte below 30 is one |
| LoadRaw.AsWrittenRefusesVectors | mnflash/lib/load-raw.c:89-90 | as written, no vector passes the 16 KiB test |
| LoadRaw.AsWrittenNeedsRjmp | mnflash/lib/load-raw.c:73-96 | as written only the rjmp branch accepts a file |
| LoadRaw.AsWrittenStricter | mnflash/lib/load-raw.c:73-96 | the two readings agree on the rjmp branch, and what the code as written accepts the intended one accepts too |
| LoadRaw.AsWrittenLoadsOnlyRjmp | mnflash/lib/load-raw.c:66-96 | as written, every file that loads starts with an rjmp table |
| LoadRaw.JmpTable | mnflash/lib/load-raw.c:87-90 | a table of fifteen `jmp` vectors is 60 bytes |
| LoadRaw.JmpTableLoads | mnflash/lib/load-raw.c:82-95 | a table of `jmp` vectors is refused as written and loads as intended |
| UsbDriver.ParseRequest | firmware/usbdrv/usbdrv.c:251 | the SETUP packet read as `usbRequest_t`: type and request bytes, then wValue, wIndex and wLength little-endian |
| UsbDriver.DescriptorFits | firmware/usbdrv/usbdrv.c:174-206 | a descriptor reply is as long as its table, and 0 bytes long when that descriptor is not configured or not known |
| UsbDriver.PresentFits | firmware/usbdrv/usbdrv.c:174-178 | `GET_DESCRIPTOR` of a configured table replies with all of it |
| UsbDriver.StandardReplies | firmware/usbdrv/usbdrv.c:213-242 | GET_STATUS, GET_CONFIGURATION and GET_INTERFACE reply with 2, 1 and 1 bytes: as intended two zero bytes, the configuration and 0; as written (read through `USB_READ_FLASH`) the program-memory bytes at the RAM addresses of `usbTxBuf + 9` and `usbConfiguration`. SET_ADDRESS and SET_CONFIGURATION take the low byte of wValue and reply with nothing; nothing else changes (also lines 288-312) |
| UsbDriver.DriverReplyFits | firmware/usbdrv/usbdrv.c:213-242 | what the driver answers itself is there to be read and is never `USB_NO_MSG` |
| UsbDriver.ClampIsMin | firmware/usbdrv/usbdrv.c:270-273 | the reply length limited by the low byte of wLength when its high byte is 0 is the minimum of the two |
| UsbDriver.RxReply | firmware/usbdrv/usbdrv.c:250-281 | an 8-byte SETUP packet restarts the toggle at DATA0, aborts a pending transmit and starts a reply of min(length, wLength) bytes, from the application for class and vendor requests (nothing else changing) and from the driver for standard ones; any other packet changes nothing |
| UsbDriver.ConfigurationReadBack | firmware/usbdrv/usbdrv.c:229-233 | after SET_CONFIGURATION with value c, GET_CONFIGURATION replies with one byte: c as intended, and as written the program-memory byte at the address of `usbConfiguration` (also lines 288-312) |
| UsbDriver.ConfigurationNotReadBack | firmware/usbdrv/usbdrv.c:229-233 | as written, the configuration that was set is not read back when the program-memory byte at its address differs from it (also lines 288-312) |
| UsbDriver.TransmitChunks | firmware/usbdrv/usbdrv.c:319-336 | building blocks until the message ends splits the pending bytes into blocks of 8 under alternating PIDs (Chunked) |
| UsbDriver.PidsAlternate | firmware/usbdrv/usbdrv.c:326 | toggling turns DATA0 into DATA1 and back |
| UsbDriver.ChunkedData | firmware/usbdrv/usbdrv.c:319-336 | a reply of m bytes goes out in m / 8 + 1 blocks that together hold exactly m; all but the last hold 8 bytes, the last m % 8 |
| UsbDriver.ChunkedPids | firmware/usbdrv/usbdrv.c:326 | the blocks go out under the toggled PID and the PID itself in turn |
| UsbDriver.ReplyBlocks | firmware/usbdrv/usbdrv.c:250-281 | the reply to a SETUP packet goes out as its bytes in blocks of 8 under DATA1, DATA0, DATA1, ..., the last one shorter than 8 (also lines 319-336) |
| UsbDriver.Driver.constructor | firmware/usbdrv/usbdrv.c:393-395 | the driver's variables start zeroed, then `usbInit` sets no pending transmit and no message |
| UsbDriver.Driver.Init | firmware/usbdrv/usbdrv.c:393-395 | `usbInit` sets `usbTxLen` to NAK and `usbMsgLen` to `USB_NO_MSG` and changes nothing else |
| UsbDriver.Driver.DriverDescriptor | firmware/usbdrv/usbdrv.c:182-206 | the message points at the table the request names when it is configured; the length is that of Descriptor |
| UsbDriver.Driver.DriverSetupRequest | firmware/usbdrv/usbdrv.c:213-242 | the new state and reply length are DriverSetup's for the driver's reading |
| UsbDriver.Driver.ProcessRx | firmware/usbdrv/usbdrv.c:250-281 | `usbProcessRx` leaves the state AfterRx gives, and keeps the driver valid |
| UsbDriver.Driver.BuildTxBlock | firmware/usbdrv/usbdrv.c:319-336 | `usbBuildTxBlock` leaves the state TxBlock gives |
| UsbDriver.Driver.Poll | firmware/main.c:529-546 | the driver part of a main-loop pass leaves the state AfterPoll gives |
| UsbDriver.TxBlock | firmware/usbdrv/usbdrv.c:319-336 | building a block keeps the driver state well formed |
| UsbDriver.ToggleTwice | firmware/usbdrv/usbdrv.c:326 | toggling the data PID twice gives it back |
| UnUsb.EmptyAndFull | examples/import/unusb.hpp:45-81 | the ring holds at most seven bytes; it is empty exactly when `head` meets `tail`, and `write` finds it full exactly when seven bytes wait |
| UnUsb.PutAppends | examples/import/unusb.hpp:42-57 | `write` on a full ring changes nothing, and otherwise appends the byte to the waiting ones |
| UnUsb.TakeFirst | examples/import/unusb.hpp:81-88 | an IN request on a ring that is not empty sends its oldest byte and removes it |
| UnUsb.TakeShift | examples/import/unusb.hpp:87 | after an IN request the ring holds at k what it held at k + 1 |
| UnUsb.PutAllKeepsFirst | examples/import/unusb.hpp:42-57 | bytes written are kept in order until seven wait; later ones are dropped |
| UnUsb.PutAllFull | examples/import/unusb.hpp:45-47 | once full, the ring ignores every later `write` |
| UnUsb.TakeAllInOrder | examples/import/unusb.hpp:78-89 | IN requests send the waiting bytes oldest first, and nothing once the ring is empty |
| UnUsb.Fifo | examples/import/unusb.hpp:42-89 | the host reads back what the application wrote into the empty ring, in order, up to seven bytes |
| UnUsb.Int16 | examples/import/unusb.hpp:93 | the two bytes `memcpy` copies into the AVR's 16-bit `int`, as a signed value (also line 10) |
| UnUsb.SetupIgnored | examples/import/unusb.hpp:71-76 | a request that is not a class request 137 returns 0 and changes nothing |
| UnUsb.SetupIn | examples/import/unusb.hpp:78-89 | an IN request sends the oldest waiting byte with length 1, or length 0 on an empty ring, and leaves the receive slot alone |
| UnUsb.SetupOut | examples/import/unusb.hpp:90-95 | an OUT request stores wValue as a signed 16-bit number into the receive slot, which then reads as available unless wValue is 0xFFFF |
| UnUsb.Drain | examples/import/unusb.hpp:44-55 | a wait that ends leaves the ring empty |
| UnUsb.DrainSends | examples/import/unusb.hpp:44-88 | a wait that ends has sent the host every waiting byte, oldest first |
| UnUsb.BlockingWriteSends | examples/import/unusb.hpp:42-57 | a blocking `write` that returns has stored the byte, and the host has read every byte that was waiting and then the new one; the ring is empty again |
| UnUsb.UnUsb.constructor | examples/import/unusb.hpp:9-23 | an empty ring of zeros, no byte received, no blocking |
| UnUsb.UnUsb.Begin | examples/import/unusb.hpp:14 | `begin` sets the blocking mode and nothing else |
| UnUsb.UnUsb.Write | examples/import/unusb.hpp:42-57 | without blocking the ring becomes Put's and the result is 0 exactly when it was full; with blocking the state, result and bytes sent are WriteBlocking's whenever the call returns |
| UnUsb.UnUsb.Wait | examples/import/unusb.hpp:44-55 | the waiting loop ends as Drain says, and does nothing without blocking |
| UnUsb.UnUsb.Available | examples/import/unusb.hpp:19 | true exactly when a value was received |
| UnUsb.UnUsb.Peek | examples/import/unusb.hpp:20 | the received value, left in place |
| UnUsb.UnUsb.Read | examples/import/unusb.hpp:21 | the received value, and the slot is emptied |
| UnUsb.UnUsb.FunctionSetup | examples/import/unusb.hpp:67-96 | `usbFunctionSetup` returns Setup's length and leaves its ring and slot; an IN reply byte is stored at `data[10]` and nothing else of `data` changes |
| UnUsb.CountValue | examples/import/unusb.hpp:45-87 | the bytes waiting in the ring are head - tail, counted around the ring |
| MnflashUploader.Blank | mnflash/lib/uploader.c:172 | the page buffer's fill: exactly `n` bytes, each 0xFF |
| MnflashUploader.Received | mnflash/lib/usb-device.c:66-76 | the read buffer is zeroed before the transfer, so it holds the device's reply followed by zeros |
| MnflashUploader.MnUsb.constructor | mnflash/lib/usb-device.c:60-134 | a device with the given mode, reply and write results, and nothing sent yet |
| MnflashUploader.MnUsb.CustomRead | mnflash/lib/usb-device.c:60-95 | returns the reply length, fills the buffer as Received does when the read succeeds, and records one read request |
| MnflashUploader.MnUsb.CustomWrite | mnflash/lib/usb-device.c:100-134 | returns the device's result for this write and records the request with the whole buffer |
| MnflashUploader.MnUsb.WriteOnce | mnflash/lib/uploader.c:106 | returns the device's result for this write and records the request with no data |
| MnflashUploader.MnUsb.USleep | mnflash/lib/uploader.c:105 | records the wait in the request log and sends nothing |
| MnflashUploader.InfoOf | mnflash/lib/uploader.c:52-91 | no information unless the device is in programming mode and at least 4 bytes came back; otherwise progmem size big-endian from bytes 0-1, page size byte 2, write sleep byte 3, and device/wiring 255 for a 4-byte reply, byte 4 and 0 for 5 bytes, bytes 4-5 for 6 or more |
| MnflashUploader.GetDeviceInfo | mnflash/lib/uploader.c:52-91 | returns InfoOf of the device's reply and sends the info request only in programming mode |
| MnflashUploader.PageBytes | mnflash/lib/uploader.c:166-170 | the bytes copied into a page are the page size or what is left up to `end`, whichever is smaller |
| MnflashUploader.PageImage | mnflash/lib/uploader.c:172-173 | a page of exactly page-size bytes holding the firmware's bytes below `end` and 0xFF after |
| MnflashUploader.EraseDevice | mnflash/lib/uploader.c:102-115 | succeeds exactly when the erase request is accepted, after sending the waits and the request Erase lists |
| MnflashUploader.EraseWaitMs | mnflash/lib/uploader.c:112 | the wait after the erase is write_sleep ms per page of program memory plus one page, and at least write_sleep ms |
| MnflashUploader.ExecuteApplication | mnflash/lib/uploader.c:117-128 | succeeds exactly when the execute request is not refused, after a double write_sleep wait |
| MnflashUploader.WritePage | mnflash/lib/uploader.c:163-198 | one pass of the loop: a write_sleep wait and one write of the page image, whatever the device answers |
| MnflashUploader.WritePages | mnflash/lib/uploader.c:162-199 | the loop sends Pages and stops at LoopEnd, one write per address |
| MnflashUploader.AddressesSpan | mnflash/lib/uploader.c:162 | the loop runs exactly often enough for its pages to reach `end` and no more |
| MnflashUploader.AddressAt | mnflash/lib/uploader.c:162 | the i-th pass writes at `start` plus i pages, below `end` |
| MnflashUploader.PagesAt | mnflash/lib/uploader.c:162-199 | pass i is a write_sleep wait followed by the page image at the i-th address |
| MnflashUploader.PageCount | mnflash/lib/uploader.c:162 | the number of pages written is the firmware's length in pages rounded up, and `page_now` ends that many pages after `start` |
| MnflashUploader.PageWritesLaidOut | mnflash/lib/uploader.c:162-199 | each page write has the page size in wValue, the address start + i·pagesize below `end` in wIndex and a full page of firmware bytes then 0xFF |
| MnflashUploader.LoopEndPage | mnflash/lib/uploader.c:162-201 | from an aligned start the loop stops on a page boundary at or after `end` |
| MnflashUploader.PageBelowLoopEnd | mnflash/lib/uploader.c:162 | every page the loop writes ends at or before where the loop stops |
| MnflashUploader.TopPageBound | mnflash/lib/uploader.c:201-205 | when the extra page is written its address is a page boundary after the loop's end and within the program size |
| MnflashUploader.ExtraPagePlace | mnflash/lib/uploader.c:201-228 | the extra page lies after `end` and after every page the loop wrote, on a page boundary within the program memory |
| MnflashUploader.FinishUpload | mnflash/lib/uploader.c:201-232 | the extra page when one is due (a failed write of it fails the upload), then the execute request, as Finish lists |
| MnflashUploader.Program | mnflash/lib/uploader.c:162-232 | the page loop followed by Finish, as Programmed lists |
| MnflashUploader.Upload | mnflash/lib/uploader.c:130-233 | returns and sends what Uploaded gives for the device's results |
| MnflashUploader.UploadVerdict | mnflash/lib/uploader.c:130-233 | nothing is sent for an unaligned start or a firmware reaching the program size; only the erase when it fails; otherwise the erase, every data page and the extra page when due, and the result is 1 exactly when the erase and the extra page succeed |
| MnflashUploader.PageResultsIgnored | mnflash/lib/uploader.c:188-198 | a failed data-page write does not change the outcome of the upload |
| MnflashUploader.Uint16Next | mnflash/lib/uploader.c:132-162 | the `uint16_t` step stays below 65536 and agrees with plain addition when that does |
| MnflashUploader.PageNowWraps | mnflash/lib/uploader.c:132-162 | on a 65535-byte device with 64-byte pages and a firmware up to 65534 both guards pass and `page_now` wraps from 65472 back to the first page |
| MnflashUploader.Uint16StepAgrees | mnflash/lib/uploader.c:132-162 | while `end` plus a page fits in 16 bits the written counter and the model's step agree on every pass |
| FirmwareBoot.PageSize | firmware/bootloader.c:345-347 | the page size is an even number of bytes between 2 and 256 |
| FirmwareBoot.ReplyBuffer | firmware/bootloader.c:459-466 | the 6-byte device-info reply: the bootloader address high byte first, the page size, the write sleep, the chip id and the wiring |
| FirmwareBoot.EventIndex | firmware/bootloader.c:284-286 | each event is a single bit |
| FirmwareBoot.EventsAccumulate | firmware/bootloader.c:289-290 | firing an event sets it and leaves every other event as it was |
| FirmwareBoot.ClearedHasNone | firmware/bootloader.c:291 | after the events are cleared none is set |
| FirmwareBoot.EntryPages | firmware/bootloader.c:330-336 | the pages the erase loop steps through end exactly at the bootloader entry |
| FirmwareBoot.Words | firmware/bootloader.c:516-546 | the data stage read as little-endian words, two bytes each |
| FirmwareBoot.Bootloader.constructor | firmware/bootloader.c:283-305 | the registers start at zero with no event and nothing written |
| FirmwareBoot.Bootloader.WriteWordToPageBuffer | firmware/bootloader.c:372-439 | the word, replaced at the vector and tiny-table addresses, is buffered at the current address (after a buffer clear at address 0) and the address moves on one word in 16 bits |
| FirmwareBoot.Bootloader.WriteFlashPage | firmware/bootloader.c:344-351 | the page ending just below the current address is written and the write is remembered |
| FirmwareBoot.Bootloader.FillFlashWithVectors | firmware/bootloader.c:442-449 | pads with 0xFFFF to the next page boundary (at least one word) and writes that page |
| FirmwareBoot.Bootloader.EraseApplication | firmware/bootloader.c:324-341 | every page below the entry erased from the top down, then page 0 filled and written |
| FirmwareBoot.Bootloader.ErasePagesDown | firmware/bootloader.c:332-337 | the erase loop erases every page below the entry from the top down and leaves the address at 0 |
| FirmwareBoot.Bootloader.FlashWrites | firmware/bootloader.c:568-578 | a page cut short is padded and written; a full page is written as it is |
| FirmwareBoot.Bootloader.FunctionSetup | firmware/bootloader.c:453-485 | the new registers and the reply AfterSetup gives for the request |
| FirmwareBoot.Bootloader.KeepVector | firmware/bootloader.c:519-537 | the reset and USB vectors the host sends are kept as absolute addresses, the second words of two-word vectors only when not 0 or 0xFFFF |
| FirmwareBoot.Bootloader.StoreWord | firmware/bootloader.c:518-545 | one pass: the vector kept, then the word buffered, or a stop at the bootloader entry |
| FirmwareBoot.Bootloader.FunctionWrite | firmware/bootloader.c:516-554 | the words stored up to the entry, then the page-complete flag and the write event as AfterWrite gives them |
| FirmwareBoot.Bootloader.ServeTraffic | firmware/bootloader.c:453-554 | the setup or data callback the host's traffic of one poll runs |
| FirmwareBoot.Bootloader.EndPass | firmware/bootloader.c:644-663 | the idle count, the erase and the page write, then the exit or the events cleared |
| FirmwareBoot.Bootloader.CarryOutEvents | firmware/bootloader.c:650-651 | the erase when asked for, then the page write when asked for |
| FirmwareBoot.Bootloader.MainPass | firmware/bootloader.c:642-663 | one pass of the main loop, as Pass gives it |
| FirmwareBoot.Bootloader.MainLoop | firmware/bootloader.c:642-663 | the do-while loop over the given passes: it stops at the first pass that leaves, and otherwise runs them all, as Loop gives it |
| FirmwareBoot.PassKeeps | firmware/bootloader.c:642-663 | a pass keeps the two kept vectors and, unless it leaves for the user program, ends with the events cleared, so the next pass starts as the first did |
| FirmwareBoot.EraseFillsBelow | firmware/bootloader.c:324-341 | the erase only adds operations, and its fills are those of page 0, below the bootloader entry |
| FirmwareBoot.PassFillsBelow | firmware/bootloader.c:642-663 | one pass (traffic, erase, page write) only adds operations, and buffers no word at or above the bootloader entry |
| FirmwareBoot.LoopFillsBelow | firmware/bootloader.c:642-663 | whatever the host sends over any number of passes, the main loop never buffers a word at or above the bootloader entry |
| FirmwareBoot.EraseEndsOnPage | firmware/bootloader.c:324-341 | the erase leaves the address on a page boundary, the events as they were and two kept vectors |
| FirmwareBoot.EraseRewritesVectors | firmware/bootloader.c:324-341 | the erase lists every page below the entry top down, then page 0 whose first word is again the jump to the bootloader (also lines 388-392) |
| FirmwareBoot.FillEndsOnPage | firmware/bootloader.c:442-449 | filling ends on a page boundary with the events and kept vectors unchanged |
| FirmwareBoot.FillPads | firmware/bootloader.c:442-449 | the fill buffers 0xFFFF up to the end of the page (a whole page from a boundary) and writes that page once |
| FirmwareBoot.FillFromZero | firmware/bootloader.c:442-449 | from address 0 the fill pads the whole first page and writes it |
| FirmwareBoot.PadOpsOnlyFill | firmware/bootloader.c:442-446 | padding only fills the page buffer, it never erases or writes a page |
| FirmwareBoot.PageDividesRange | firmware/bootloader.c:438 | a page divides the 64 KiB the address wraps at, so the wrap keeps page boundaries |
| FirmwareBoot.RjmpRoundTrip | firmware/bootloader.c:366-369 | decoding a relative jump at a location and encoding it there again gives back its 12-bit offset (also lines 493-513) |
| FirmwareBoot.VectorsRedirected | firmware/bootloader.c:388-398 | the reset and USB vectors become relative jumps to the bootloader entry and its interrupt handler |
| FirmwareBoot.TinyTable | firmware/bootloader.c:403-426 | the tiny table holds jumps to the kept vectors (rjmp, or jmp and address) and the oscillator calibration |
| FirmwareBoot.OtherWordsKept | firmware/bootloader.c:372-439 | every other word is buffered as the host sent it |
| FirmwareBoot.VectorsRelocated | firmware/bootloader.c:403-409 | the tiny table's jumps reach where the user program's vectors went (the USB one moved by the program's offset); with two-word vectors the address is kept as sent (also lines 519-537) |
| FirmwareBoot.ServedEvents | firmware/bootloader.c:549-551 | after a poll's traffic the page-write event is set only on a page boundary |
| FirmwareBoot.WriteRunKeeps | firmware/bootloader.c:518-546 | the write loop keeps two kept vectors and leaves the events and the idle count alone |
| FirmwareBoot.WriteRunBelow | firmware/bootloader.c:538-541 | the data stage never buffers a word at or above the bootloader entry |
| FirmwareBoot.WriteRunAdvances | firmware/bootloader.c:518-546 | words below the entry are all buffered one address after the other |
| FirmwareBoot.StoreBelow | firmware/bootloader.c:518-545 | a word below the entry is buffered and the address moves on by one word |
| FirmwareBoot.WriteBoundary | firmware/bootloader.c:548-553 | the page is reported complete exactly when the address is on a page boundary, and only then the write event is added |
| FirmwareBoot.SetupRequests | firmware/bootloader.c:453-485 | request 0 replies with the device info, 1 sets the address and hands the data on, 2 fires the erase, anything else the exit where it can exit; the idle count is reset |
| FirmwareBoot.PassClearsEvents | firmware/bootloader.c:642-663 | a pass ends with no event set unless it leaves at the host's request, which it does exactly when the bootloader can exit and the request came in this pass |
| FirmwareBoot.ServedExecute | firmware/bootloader.c:477-482 | only a request above 2 sets the execute event, and only where the bootloader can exit |
| FirmwareBoot.AfterPollExit | firmware/bootloader.c:654-662 | the loop leaves on an execute event where it can exit; otherwise the events are cleared |
| FirmwareBoot.RunEventsKeepEvents | firmware/bootloader.c:650-651 | the erase and the page write leave the events as they were |
| FirmwareBoot.ResetRelocated | firmware/bootloader.c:520-521 | the jump written into the tiny table reaches the address the application's own reset `rjmp` reached (also lines 403-406) |
| FirmwareBoot.UsbRelocated | firmware/bootloader.c:529-530 | the jump written into the tiny table reaches the application's USB handler, moved by APP_VUSB_OFFSET (also lines 407-409) |
| FirmwareBoot.BoundaryWraps | firmware/bootloader.c:442-446 | the page boundary a fill ends at stays one when the 16-bit address wraps |
| FirmwareMain.ProgmemSize | firmware/main.c:61 | the room for the user program and the postscript together reach the bootloader address, and the room fits in 16 bits |
| FirmwareMain.ConfigReply | firmware/main.c:121-130 | the configuration reply has 8 bytes |
| FirmwareMain.HostReadsConfigReply | firmware/main.c:121-130 | the reply carries the user-program room high byte first and the write sleep; as the host library decodes it, a 256-byte page is refused and otherwise the flash size, the page size, the signatures and the bootloader start come back as the bootloader's own |
| FirmwareMain.StartIsBootloader | firmware/main.c:121-130 | the first page boundary at or above the room for the user program is the bootloader address (also line 61) |
| FirmwareMain.PageByte | firmware/main.c:124 | the page-size byte holds the page size, or 0 for a page of 256 bytes |
| FirmwareMain.Bootloader.constructor | firmware/main.c:426-432 | the current address and the command start at 0 and nop; only the idle counter's low byte is left as it was |
| FirmwareMain.Bootloader.EraseApplication | firmware/main.c:176-204 | every page below the bootloader erased from the top down, and the address back at 0 |
| FirmwareMain.EraseOrder | firmware/main.c:176-204 | one erase per page below the bootloader, from the page just below it down to page 0, and nothing else; the address ends at 0 |
| FirmwareMain.EraseDescends | firmware/main.c:179-186 | later erases are at lower addresses, each page-aligned and below the bootloader |
| FirmwareMain.Bootloader.WriteFlashPage | firmware/main.c:209-217 | the page of the last buffered word is written, as AfterPageWrite gives it |
| FirmwareMain.PageWriteGuard | firmware/main.c:209-217 | a page is written only at the last buffered word's address and only below the bootloader; at address 0 (the 16-bit subtraction wraps) nothing is written |
| FirmwareMain.Bootloader.WriteWordToPageBuffer | firmware/main.c:226-249 | the word, replaced at the reset vector and the calibration address, is buffered at the current address, which moves on one word in 16 bits |
| FirmwareMain.ResetVectorFixed | firmware/main.c:228-241 | the reset vector always leads into the bootloader, as an rjmp below 8 KiB and as a jmp to its word address above, whatever the host sent |
| FirmwareMain.OtherWordsKept | firmware/main.c:226-249 | every other word is buffered as sent, except the calibration word where it is saved |
| FirmwareMain.Bootloader.FunctionSetup | firmware/main.c:274-316 | the new registers and the reply as AfterSetup gives them |
| FirmwareMain.SetPageAddress | firmware/main.c:284-304 | a set-page-address request is ignored while the address is 0; otherwise the address becomes the requested one rounded down to its page and the page buffer is cleared |
| FirmwareMain.PageAddressMasked | firmware/main.c:288-289 | masking the low byte rounds the requested address down to its page |
| FirmwareMain.WriteDataAdvances | firmware/main.c:305-307 | a write-data request buffers its two words at the current address and the next and moves on by 4 |
| FirmwareMain.WritePageFlag | firmware/main.c:308-310 | after a write-data request the page is to be written exactly when the new address is on a page boundary; otherwise the command stays |
| FirmwareMain.LowByteRemainder | firmware/main.c:308 | the test on the low byte of the address agrees with the test on the whole address |
| FirmwareMain.OtherRequests | firmware/main.c:311-314 | any other request just sets the command to its low six bits (so erase and exit keep their codes) and restarts the idle count's high byte |
| FirmwareMain.Bootloader.CarryOutCommand | firmware/main.c:507-512 | the erase or the page write the command asks for |
| FirmwareMain.Bootloader.Serve | firmware/main.c:517-558 | the exit check, the request of this pass, the idle count and the time-out, as Idle gives them |
| FirmwareMain.Bootloader.Pass | firmware/main.c:442-583 | one pass of the main loop, as Iteration gives it |
| FirmwareMain.Bootloader.MainLoop | firmware/main.c:442-583 | the loop over the given passes until it exits, as Loop gives it |
| FirmwareMain.CommandReset | firmware/main.c:517-523 | after a pass any command but exit is back to nop unless this pass's request set one; an exit command leaves once a wait runs out |
| FirmwareMain.LoopExit | firmware/main.c:517-558 | the loop leaves exactly on an exit command after a quiet wait, or when the idle count reaches the time-out and a program is there; each other pass counts one idle poll in 16 bits |
| FirmwareMain.SafePass | firmware/main.c:442-583 | no pass erases or writes a page of the bootloader, and the reset vector it buffers leads into the bootloader |
| FirmwareMain.LoopSafe | firmware/main.c:442-583 | whatever the host sends, the bootloader never erases or writes a page of its own and the reset vector it buffers always leads into it |
| Upgrade.PageStart | firmware/upgrade.c:54-76 | the page start of an address: page-aligned, at or below it, and less than a page below |
| Upgrade.Blank | firmware/upgrade.c:117 | a run of `n` words, each 0xFFFF (also lines 137, 159) |
| Upgrade.ImageLayout | firmware/upgrade.c:132-166 | the image written is whole pages; the words from the page start up to the bootloader address are blank, payload word i sits at byte address BOOTLOADER_ADDRESS + 2i, and the words after the payload are blank and fill less than a page |
| Upgrade.LeadAlign | firmware/upgrade.c:132-140 | the blank words before the bootloader address make up its offset into its page, less than a page |
| Upgrade.PadFills | firmware/upgrade.c:157-162 | the tail padding is less than a page and completes one |
| Upgrade.ProgrammedPage | firmware/upgrade.c:149-152 | page j of the written pages is an erase, a fill of the j-th page of image words and a write, at the start plus j pages |
| Upgrade.ProgrammedPrefix | firmware/upgrade.c:142-155 | the pages written first are a prefix of the pages written later, so pages go out in ascending order |
| Upgrade.BootOpsTail | firmware/upgrade.c:142-166 | the bootloader's operations are its whole pages, then the padded last page when one was begun |
| Upgrade.Upgrader.constructor | firmware/upgrade.c:179-181 | an upgrader over the given build constants, payload and flash contents that has issued nothing |
| Upgrade.Upgrader.ErasePage | firmware/upgrade.c:52-56 | one erase of the page holding the address |
| Upgrade.FlushAligned | firmware/upgrade.c:54 | erasing at a page-aligned address erases that address |
| Upgrade.Upgrader.WritePage | firmware/upgrade.c:58-70 | a fill of every word of the buffer at consecutive even addresses, then one page write |
| Upgrade.Upgrader.LoadTable | firmware/upgrade.c:72-82 | the buffer holds the words of the page holding the address, as the flash held them |
| Upgrade.Upgrader.SecureVectorTable | firmware/upgrade.c:89-99 | page 0 erased and rewritten as SecuredTable |
| Upgrade.SecuredTableShape | firmware/upgrade.c:93-95 | the secured page is page 0 as it was but for word 0, a relative jump to the upgrader's code |
| Upgrade.Upgrader.ForwardVectorTable | firmware/upgrade.c:112-124 | page 0 erased and rewritten as ForwardTable |
| Upgrade.ForwardTableShape | firmware/upgrade.c:117-120 | the forwarding page is all 0xFFFF except word 0, a relative jump landing on (BOOTLOADER_ADDRESS + TINY_TABLE_LEN) / 2 |
| Upgrade.Upgrader.WriteNewBootloader | firmware/upgrade.c:127-167 | issues exactly BootOps: the image's pages from the bootloader's page start on |
| Upgrade.Upgrader.LeadBlanks | firmware/upgrade.c:136-140 | the first loop leaves the blank words up to the bootloader address in the buffer and the address on it |
| Upgrade.Upgrader.PayloadWords | firmware/upgrade.c:142-155 | the payload loop writes every page the payload fills and leaves the rest of the image's current page in the buffer |
| Upgrade.Upgrader.FlushPage | firmware/upgrade.c:151-165 | the page ending at the write address erased and written from the buffer |
| Upgrade.Upgrader.PadPage | firmware/upgrade.c:158-162 | the pad loop fills the buffer with 0xFFFF from where it was up to the page end, keeping the words before |
| Upgrade.Upgrader.TailPage | firmware/upgrade.c:157-166 | no page when the payload ended on a boundary; otherwise the last image page written |
| Upgrade.Upgrader.Run | firmware/upgrade.c:179-194 | the secured vector page, the new bootloader's pages and the forwarding vector page, in that order |
| LibSession.USub | commandline/library/micronucleus_lib.c:240 | the `unsigned int` subtraction wraps into 0 .. 2^32 - 1 |
| LibSession.UsbHandle.constructor | commandline/library/micronucleus_lib.c:64-70 | an opened handle on the device's answers with nothing sent |
| LibSession.UsbHandle.ControlIn | commandline/library/micronucleus_lib.c:75-110 | returns the byte count the device answers with (negative when it refuses), fills the buffer with that many reply bytes, and records the request |
| LibSession.UsbHandle.ControlOut | commandline/library/micronucleus_lib.c:139 | returns the device's result for this out request and records it (also lines 280, 290) |
| LibSession.UsbHandle.Wait | commandline/library/micronucleus_lib.c:305 | records the delay and sends nothing |
| LibSession.UsbHandle.CloseHandle | commandline/library/micronucleus_lib.c:164 | records the close |
| LibSession.InfoResult | commandline/library/micronucleus_lib.c:75-113 | a read result is negative exactly when the device refuses, and never more than its reply |
| LibSession.ProbeDevice | commandline/library/micronucleus_lib.c:52-131 | fails exactly when Probe does, with Probe's error; otherwise a fresh handle holding Probe's information after one info request of the protocol's size |
| LibSession.ConnectDevice | commandline/library/micronucleus_lib.c:36-135 | fails exactly when Connect does; otherwise the device Connect finds, with its information and one info request sent |
| LibSession.ScanConcat | commandline/library/micronucleus_lib.c:47-50 | scanning two runs of devices is scanning the first and continuing with the second |
| LibSession.FailureStops | commandline/library/micronucleus_lib.c:57-78 | the first matching device that fails ends the search with its error, whatever comes after it |
| LibSession.NoMatches | commandline/library/micronucleus_lib.c:52 | devices with another vendor or product id change nothing |
| LibSession.LastMatchWins | commandline/library/micronucleus_lib.c:47-134 | of several matching devices that all answer, the last one is returned |
| LibSession.ScanGeometry | commandline/library/micronucleus_lib.c:80-87 | a device that connects holds the geometry of its info reply |
| LibSession.Nucleus.constructor | commandline/library/micronucleus_lib.c:53 | a fresh session with no handle |
| LibSession.Nucleus.SetGeometry | commandline/library/micronucleus_lib.c:80-87 | the flash size big-endian from bytes 0-1, the page size from byte 2, the page count rounded up and the bootloader start at pages × page size; fails only on page size 0 |
| LibSession.InfoGeometry | commandline/library/micronucleus_lib.c:80-87 | only page size 0 is rejected; otherwise the flash size, the page size, the rounded-up page count and a bootloader start at the first page boundary at or above the flash size |
| LibSession.PageCount | commandline/library/micronucleus_lib.c:84-85 | the quotient plus one when it leaves a remainder is the rounded-up quotient |
| LibSession.Nucleus.SetTiming | commandline/library/micronucleus_lib.c:89-128 | the write wait (low 7 bits of byte 3, plus 2 ms on protocol 2 unless fast), the erase wait (that times the pages, a quarter with bit 7 on protocol 2) and the signature bytes |
| LibSession.InfoTiming | commandline/library/micronucleus_lib.c:89-105 | byte 3 splits into the write wait's 7 bits and the quarter-erase flag, and the erase wait follows from them |
| LibSession.Nucleus.EraseFlash | commandline/library/micronucleus_lib.c:137-171 | one erase request and the erase delay, then the result EraseResult gives, with the handle closed and dropped on -34 |
| LibSession.EraseResult | commandline/library/micronucleus_lib.c:162-170 | the five errors of a device lost while erasing become 1; any other result is returned as it is |
| LibSession.Nucleus.StartApp | commandline/library/micronucleus_lib.c:319-327 | one run request; any nonzero result is -1 |
| LibSession.StartResult | commandline/library/micronucleus_lib.c:321-326 | 0 exactly when the transfer returns 0, otherwise -1 |
| LibSession.Nucleus.WriteFlashPages | commandline/library/micronucleus_lib.c:174-317 | returns and sends what WriteFlash gives for the program and the device's results |
| LibSession.Nucleus.FillPage | commandline/library/micronucleus_lib.c:193-200 | the page holds the program bytes up to and including program_size and 0xFF after, and is marked as holding data exactly when it starts within the program |
| LibSession.Filled | commandline/library/micronucleus_lib.c:193-200 | a page of the requested length |
| LibSession.FilledIsImage | commandline/library/micronucleus_lib.c:183-200 | each page is the slice of one padded program image at the page's address |
| LibSession.FilledTiles | commandline/library/micronucleus_lib.c:183-200 | two consecutive pages together are the page spanning both |
| LibSession.Nucleus.PatchFirstPage | commandline/library/micronucleus_lib.c:202-236 | the user's reset vector is read from page 0 when it is a jmp or an rjmp, and the page then gets the jump to the bootloader |
| LibSession.Nucleus.PatchLastPage | commandline/library/micronucleus_lib.c:240-258 | the last page gets the jump to the user's reset target just before the bootloader |
| LibSession.Nucleus.PatchPage | commandline/library/micronucleus_lib.c:202-258 | the reset vector is found exactly when ResetAfter finds it, and the page is then patched |
| LibSession.Nucleus.PutJump | commandline/library/micronucleus_lib.c:224-258 | the byte stores of a jmp or an rjmp at the offset |
| LibSession.JumpReadsBack | commandline/library/micronucleus_lib.c:205-258 | a jump written reads back as the reset vector it encodes, and every other byte is unchanged |
| LibSession.FirstPageJumpsToBootloader | commandline/library/micronucleus_lib.c:224-236 | page 0's reset vector leads to the bootloader start: a jmp above 8 KiB, an rjmp to its word address below |
| LibSession.LastPageJumpsToUser | commandline/library/micronucleus_lib.c:240-258 | the word before the bootloader jumps to where the user's reset vector went |
| LibSession.LastPageOffset | commandline/library/micronucleus_lib.c:240-263 | the only page at or past bootloader_start − page_size is the last, and it holds the moved vector |
| LibSession.Nucleus.SendBuffer | commandline/library/micronucleus_lib.c:267-305 | the page sent as SendPage lists: the protocol-1 page request or the protocol-2 page address and data requests, then the write delay |
| LibSession.Nucleus.SendWord | commandline/library/micronucleus_lib.c:284-291 | one data request carrying the two little-endian words |
| LibSession.Nucleus.SendData | commandline/library/micronucleus_lib.c:284-291 | the data requests four bytes each, stopping at the first refused one |
| LibSession.WordsSent | commandline/library/micronucleus_lib.c:284-291 | when every request is accepted, one request per four bytes, each carrying the page's bytes i+4j.. as two little-endian words |
| LibSession.WordsBound | commandline/library/micronucleus_lib.c:284-291 | at most one request per four bytes; fewer only when a refused request ended the page |
| LibSession.PageSentWhen | commandline/library/micronucleus_lib.c:263-267 | a page is sent exactly when it holds data or is the last page |
| LibSession.NoBranchNoWrite | commandline/library/micronucleus_lib.c:211-221 | a page 0 without a jmp or rjmp reset vector stops the write with -1 before anything is sent |
| HidUpload.Int32 | commandline/main.c:112-122 | a C `int` holding the low 32 bits of the value in two's complement |
| HidUpload.GetUsbInt | commandline/main.c:112-122 | the little-endian value of the bytes, as a 32-bit `int` |
| HidUpload.SetUsbInt | commandline/main.c:124-132 | the `n` bytes at the offset become the value's low bytes, lowest first, and the rest of the buffer stays |
| HidUpload.UsbIntRoundTrip | commandline/main.c:112-132 | reading back what setUsbInt wrote gives the value modulo 256^n, and the value as an `int` for 4 bytes |
| HidUpload.Mask | commandline/main.c:183-187 | the mask is at least 127 |
| HidUpload.MaskOfPageSize | commandline/main.c:183-187 | the mask plus one is 128 below 128-byte pages and the page size for a power of two above, a multiple of the block size either way |
| HidUpload.RoundingBounds | commandline/main.c:188-189 | rounding down does not go up, and rounding up goes up by at most the mask |
| HidUpload.RoundingAligned | commandline/main.c:188-189 | with a mask of 2^k − 1 both roundings land on multiples of 2^k less than 2^k away |
| HidUpload.Received | commandline/main.c:165 | the union after the report read: its size, with the reply over its first bytes |
| HidUpload.HidDevice.constructor | commandline/main.c:148-158 | a device with the given answers and nothing requested yet |
| HidUpload.HidDevice.Open | commandline/main.c:159 | the open's error, recorded |
| HidUpload.HidDevice.GetReport | commandline/main.c:165 | on success at most the union's size is read and copied over it; on an error the union is unchanged |
| HidUpload.HidDevice.SetReport | commandline/main.c:197-215 | the device's result for this report, and the report of the first `n` bytes recorded |
| HidUpload.HidDevice.Sleep | commandline/main.c:206-207 | the wait recorded and nothing sent |
| HidUpload.HidDevice.Close | commandline/main.c:220-221 | the close recorded |
| HidUpload.BlockReport | commandline/main.c:192-194 | a data report has the union's size |
| HidUpload.BlockReportLayout | commandline/main.c:192-194 | a data report is report id 2, the address in three little-endian bytes, and the 128 bytes of memory at the address |
| HidUpload.FillBlock | commandline/main.c:192-194 | the union becomes the data report of the block at the address |
| HidUpload.SendBlock | commandline/main.c:192-208 | the block's report sent, and the waits after it when it is accepted |
| HidUpload.SendBlocks | commandline/main.c:191-209 | the loop sends what Blocks lists and stops at the first refused report |
| HidUpload.CheckInfo | commandline/main.c:164-182 | the info request, failing as ReadInfo does, and the page size read from the report |
| HidUpload.TransferData | commandline/main.c:163-211 | the info request, its checks and the blocks, as Transfer gives them |
| HidUpload.SendRange | commandline/main.c:183-209 | the rounded range's blocks, as RangeSent gives them |
| HidUpload.Spans | commandline/main.c:189-193 | the rounded end leaves room for a block inside the memory the copy reads |
| HidUpload.LeaveAndClose | commandline/main.c:212-221 | the leave report when asked for, then the close; the leave report's result is ignored |
| HidUpload.UploadData | commandline/main.c:148-224 | the result and the requests Upload gives |
| HidUpload.BlockCountIs | commandline/main.c:191 | the loop runs the range's length in blocks, rounded up |
| HidUpload.BlockIndex | commandline/main.c:191 | block j is sent exactly when it starts below the end |
| HidUpload.BlocksAccepted | commandline/main.c:191-209 | when every report is accepted the data reports are the blocks of the range in ascending order |
| HidUpload.BlocksStopAtError | commandline/main.c:197-200 | a refused j-th block ends the upload with its error after j + 1 reports |
| HidUpload.RefusedBlockIsLast | commandline/main.c:197-200 | nothing is sent after a refused block |
| HidUpload.InfoRejected | commandline/main.c:168-181 | a short info report or data beyond the device's flash fails with -1 after only the open, the info request and the close |
| HidUpload.AlignedBlocks | commandline/main.c:183-191 | the rounded range starts on a block boundary and is a whole number of blocks when the page size is below 128 or a power of two |
| HidUpload.UploadSends | commandline/main.c:148-224 | when every request succeeds the data reports are the rounded range's blocks in ascending order, and every byte from start to end travels at its own address |
| HidUpload.BlocksCover | commandline/main.c:191-194 | the blocks from the rounded start carry every byte of a range inside them |
| CmdlineHex.Rest | commandline/micronucleus.c:348-357 | reads consume characters while there are some and nothing at the end of the file |
| CmdlineHex.AfterColon | commandline/micronucleus.c:336-344 | what follows the first ':' of the text, or nothing exactly when the text holds no ':' |
| CmdlineHex.AfterColonSkips | commandline/micronucleus.c:336-344 | text without a colon before a record is passed over |
| CmdlineHex.HexFile.constructor | commandline/micronucleus.c:365 | an open file at its first character |
| CmdlineHex.HexFile.Getc | commandline/micronucleus.c:339-340 | the next character, or EOF at the end, and the file one character on |
| CmdlineHex.HexFile.ParseUntilColon | commandline/micronucleus.c:336-344 | returns ':' exactly when the rest of the file holds one, and then leaves the file just after it; otherwise EOF |
| CmdlineHex.HexFile.ParseHex | commandline/micronucleus.c:348-357 | the `strtol` value of the next `n` characters, and the file `n` characters on |
| CmdlineHex.FieldBound | commandline/micronucleus.c:348-357 | a field of `n` characters is below 16^n in magnitude |
| CmdlineHex.FieldOfDigits | commandline/micronucleus.c:348-357 | `n` hex digits read as their value, most significant first |
| CmdlineHex.WordHexValue | commandline/micronucleus.c:375 | four digits written for a word read back as the word |
| CmdlineHex.ReadHeadAt | commandline/micronucleus.c:374-378 | the header fields are the characters 0-1, 2-5 and 6-7 after the colon |
| CmdlineHex.HeadOfRecord | commandline/micronucleus.c:374-378 | after a record's colon come its length, address and type, then its data digits |
| CmdlineHex.ReadRecordHead | commandline/micronucleus.c:374-378 | the three header reads, as ReadHead gives them, within their field widths |
| CmdlineHex.Fields | commandline/micronucleus.c:383-388 | the data loop reads exactly `n` fields |
| CmdlineHex.FieldsOfHex | commandline/micronucleus.c:383-388 | the data fields of a record read back as its data bytes and leave what follows |
| CmdlineHex.Stored | commandline/micronucleus.c:385 | the buffer keeps its length |
| CmdlineHex.StoreStep | commandline/micronucleus.c:383-388 | one pass of the data loop stores one byte, adds it to the sum and reads two characters |
| CmdlineHex.StoreData | commandline/micronucleus.c:383-388 | the loop stores the fields from `base` on, adds them to the sum and ends with the address past the data |
| CmdlineHex.Lowered | commandline/micronucleus.c:394-396 | the start address becomes the smaller of itself and the record base |
| CmdlineHex.Raised | commandline/micronucleus.c:397-399 | the end address becomes the larger of itself and the address past the record |
| CmdlineHex.RecordStep | commandline/micronucleus.c:373-400 | a successful pass consumes text and keeps the buffer's size |
| CmdlineHex.DataStep | commandline/micronucleus.c:383-400 | a successful data record consumes text and keeps the buffer's size |
| CmdlineHex.ParseRecord | commandline/micronucleus.c:373-400 | one pass of the record loop, as RecordStep gives it |
| CmdlineHex.DataRecord | commandline/micronucleus.c:383-399 | the data loop, the checksum and the address range of a type-0 line, as DataStep gives them |
| CmdlineHex.ParseIntelHex | commandline/micronucleus.c:362-404 | the buffer, the range and the warnings ParseAll gives the file, and an error exactly when ParseAll fails |
| CmdlineHex.LoopSumIsChecksum | commandline/micronucleus.c:374-390 | the loop's sum is 0 modulo 256 exactly when the line's checksum byte is the format's checksum |
| CmdlineHex.DataRecordStored | commandline/micronucleus.c:383-399 | a data record is stored whatever its checksum; a wrong one only adds a warning |
| CmdlineHex.DataRecordLoads | commandline/micronucleus.c:372-400 | a well-formed data record places its bytes at its address and widens the range |
| CmdlineHex.OtherTypeSkipped | commandline/micronucleus.c:378-381 | a record of any other type is dropped once its type byte is read, before any byte is stored |
| CmdlineHex.HexTextLoads | commandline/micronucleus.c:362-404 | a file of data records loads without error, each record placed in turn |
| CmdlineHex.ApplyAllKeepsWarnings | commandline/micronucleus.c:390-393 | records with the format's checksum print no warning |
| CmdlineHex.ApplyAllRange | commandline/micronucleus.c:394-399 | the start is the lowest record address or the initial start, the end the highest past-the-end address or the initial end |
| CmdlineHex.PlacedAt | commandline/micronucleus.c:385 | a placed record changes exactly the bytes it covers |
| CmdlineHex.ApplyAllByte | commandline/micronucleus.c:372-400 | every byte is the one the last record covering it gives, and an uncovered byte keeps its value |
| CmdlineHex.Bytes | commandline/micronucleus.c:423-430 | one byte per character read |
| CmdlineHex.ParseRaw | commandline/micronucleus.c:408-434 | the file's bytes from address 0, the range 0 to the file's length, and the rest of the buffer untouched |
| CmdlineHex.RawImageBytes | commandline/micronucleus.c:408-434 | a raw file holds its bytes from 0 on and the rest of the buffer stays erased (also line 206) |
| CmdlineHex.Erased | commandline/micronucleus.c:206 | the buffer is 65536 + 256 bytes of 0xFF |
| CmdlineHex.ReadFile | commandline/micronucleus.c:201-217 | the reader the file type selects, from start 1 and end 0, as Parsed gives it |
| CmdlineHex.Load | commandline/micronucleus.c:201-230 | the erased buffer, the file read, then the no-data and too-big checks, as LoadImage gives them |
| CmdlineHex.RawLoad | commandline/micronucleus.c:222-230 | a raw file is accepted exactly when it is not empty and fits the flash, otherwise no data or the excess is reported (also lines 408-434) |
| CmdlineHex.LoadedFits | commandline/micronucleus.c:222-230 | whatever is accepted has its start below its end and its end within the flash; a parsed file is refused only for one of those |
| CmdlineHex.HexLoad | commandline/micronucleus.c:201-230 | a hex file of data records is accepted exactly when its records hold data within the flash |
| CmdlineHex.EmptyHexRejected | commandline/micronucleus.c:201-225 | a hex file without a record leaves start above end and is refused as no data |
| CmdlineHex.ParseAllSkips | commandline/micronucleus.c:372 | text before the next colon is skipped without effect |
| MnflashFirmware.TargetName | mnflash/firmware.c:53-62 | the walk along the target list gives TargetNameOf the device and wiring |
| MnflashFirmware.LookupFirst | mnflash/firmware.c:56-59 | the first entry matching the device and wiring is returned, and nothing exactly when none matches |
| MnflashFirmware.KnownTargets | mnflash/firmware.c:45-61 | the four boards of the table by name, and "unknown" for every other pair |
| MnflashFirmware.AutofmtOrder | mnflash/firmware.c:81-94 | the loaders are tried elf, ihex, raw, the first that reads the file wins, and nothing comes back exactly when none does |
| MnflashFirmware.MaxLength | mnflash/firmware.c:110-120 | the length no string exceeds and one of them reaches |
| MnflashFirmware.Longest | mnflash/firmware.c:110-120 | the `pflen` and `extlen` loops compute the longest length |
| MnflashFirmware.MaxLengthUnique | mnflash/firmware.c:110-120 | a bound every string respects and one meets is the longest length |
| MnflashFirmware.NameFits | mnflash/firmware.c:122-137 | the buffer has room for every candidate name and its NUL, so `snprintf` never cuts one short |
| MnflashFirmware.TryName | mnflash/firmware.c:139-145 | a blob exactly when the name is a regular file a loader reads, and then the one the loaders give |
| MnflashFirmware.TryPrefix | mnflash/firmware.c:132-147 | the extensions with one prefix, searched in order |
| MnflashFirmware.LoadFromDir | mnflash/firmware.c:99-155 | the nested loops give FromDir: prefixes outside, extensions inside |
| MnflashFirmware.SearchFirst | mnflash/firmware.c:131-150 | the blob of the first loadable name, and nothing exactly when no name loads |
| MnflashFirmware.SearchConcat | mnflash/firmware.c:131-150 | a search over two lists finds in the second only what the first does not hold |
| MnflashFirmware.GridAt | mnflash/firmware.c:131-137 | name j·4 + i of the search is prefix j with extension i |
| MnflashFirmware.DirectoryOrder | mnflash/firmware.c:99-155 | in a directory, names after the target come before `target-` ones, and within a prefix .elf, .hex, .bin, .raw: the first such regular file a loader reads wins |
| MnflashFirmware.Find | mnflash/firmware.c:157-173 | a regular file is loaded with the loaders, a directory is searched, and anything else gives nothing |
| GenData.LeadingBlanks | upgrade/generate-data.rb:10-11 | the count of leading 0xFF bytes: every byte before it is 0xFF and the byte at it is not (or the image ends there) |
| GenData.PackWords | upgrade/generate-data.rb:28-30 | half as many words as bytes |
| GenData.UnpackWords | upgrade/generate-data.rb:28-30 | two bytes per word |
| GenData.NonBlank | upgrade/generate-data.rb:10-17 | the bytes that are not 0xFF, no more than the image holds |
| GenData.FindStart | upgrade/generate-data.rb:10-11 | the loop counts the leading 0xFF bytes, stopping at the end of the image where `data[i]` is nil |
| GenData.Trim | upgrade/generate-data.rb:14 | the image without its first `start` bytes |
| GenData.Pad | upgrade/generate-data.rb:17 | the image padded as Padded gives it |
| GenData.PaddedShape | upgrade/generate-data.rb:17 | the padded length is even, the data is a prefix, and only one 0xFF at most is appended |
| GenData.Generate | upgrade/generate-data.rb:7-33 | the address and the words the script writes, as Generated gives them |
| GenData.PackWordsAt | upgrade/generate-data.rb:28-30 | word k is the pair at 2k and 2k+1 with the second byte high |
| GenData.PackWordsBound | upgrade/generate-data.rb:28-30 | every word fits in 16 bits |
| GenData.UnpackPack | upgrade/generate-data.rb:28-30 | reading the words back low byte first gives the bytes again |
| GenData.GeneratedLayout | upgrade/generate-data.rb:7-33 | the words hold the image's bytes from the install address on, in order, then at most one 0xFF; the address counts the dropped 0xFF bytes |
| GenData.GeneratedBytes | upgrade/generate-data.rb:7-33 | the words unpack to the trimmed, padded image |
| GenData.NonBlankKept | upgrade/generate-data.rb:10-17 | the bytes that are not 0xFF reach the words unchanged and in order |
| RubyHex.Slice | ruby/micronucleus.rb:147-152 | Ruby's range slice: nil exactly when the start is past the end of the string, and the plain slice when the range fits |
| RubyHex.Chomp | ruby/micronucleus.rb:146 | `chomp!` removes at most the two characters of one line terminator from the end |
| RubyHex.ChompRecord | ruby/micronucleus.rb:146 | a record followed by its terminator chomps back to the record |
| RubyHex.ChecksumOfSection | ruby/micronucleus.rb:154-158 | the computed checksum is a byte that brings the section's sum to 0 modulo 256 |
| RubyHex.DecodeLine | ruby/micronucleus.rb:144-145 | a line not starting with ':' is skipped |
| RubyHex.DecodeExactLength | ruby/micronucleus.rb:147-152 | on a line of exactly 11 + 2L characters every slice is in range and the fields are positional |
| RubyHex.SectionValues | ruby/micronucleus.rb:152-156 | the checksum section reads as the four header bytes, then the data |
| RubyHex.SectionChecksum | ruby/micronucleus.rb:152-158 | the computed checksum of a record's section is the format's checksum |
| RubyHex.RecordFields | ruby/micronucleus.rb:147-152 | the length, the address, the type, the checksum and the data `parse` reads from a record line |
| RubyHex.DecodeRecord | ruby/micronucleus.rb:147-167 | a checksum mismatch raises with the format's checksum; a matching line of another type changes nothing; a matching data record stores its bytes |
| RubyHex.RoundTrip | ruby/micronucleus.rb:143-169 | the exclusive slice reads back exactly the data an encoder wrote at its address |
| RubyHex.ChecksumRejected | ruby/micronucleus.rb:160 | only a checksum equal to the format's checksum is accepted |
| RubyHex.InclusiveSliceStoresExtraValue | firmware/upload.rb:140 | with the inclusive slice every well-formed data record stores one value more than it carries, the checksum's first digit |
| RubyHex.ParseIsDecodeThenApply | ruby/micronucleus.rb:143-169 | `parse` fails exactly when some line fails, and otherwise applies the decoded lines in order |
| RubyHex.SkipsNonRecordLines | ruby/micronucleus.rb:145 | a line not starting with ':' raises nothing and changes nothing |
| RubyHex.UntouchedAddress | ruby/micronucleus.rb:162-167 | records that do not write an address leave it as it was |
| RubyHex.LastWriteWins | ruby/micronucleus.rb:164-166 | the last record writing an address decides its value |
| RubyHex.Store | ruby/micronucleus.rb:164-166 | the map gains the record's addresses, which hold its values, and keeps every other entry |
| RubyHex.HexProgram.constructor | ruby/micronucleus.rb:123-127 | an empty map with the selected slicing |
| RubyHex.HexProgram.Parse | ruby/micronucleus.rb:143-169 | the loop over the lines ends with ParseLines' map, or with its error |
| RubyHex.HexProgram.Write | ruby/micronucleus.rb:164-166 | the `each_with_index` loop stores the record's values from its address |
| RubyHex.HexProgram.Bytes | ruby/micronucleus.rb:133-139 | addresses 0 up to the highest key, unwritten ones 0xFF; an empty map raises |
| RubyHex.HexProgram.Binary | ruby/micronucleus.rb:129-131 | `pack('C*')` keeps the low eight bits of every entry of `bytes` |
| RubyUpload.RequestNumber | ruby/micronucleus.rb:5-10 | `Functions.index`: a number below 4, `get_info` being 0 |
| RubyUpload.RequestNumbersDistinct | ruby/micronucleus.rb:5-10 | two functions share a request number exactly when they are the same function |
| RubyUpload.RequestType | ruby/micronucleus.rb:114-119 | vendor and device request, with the IN bit set exactly when a reply is expected |
| RubyUpload.MakeTransfer | ruby/micronucleus.rb:103-111 | the request number, the 5000 ms timeout, the given wValue, wIndex and data, and the matching request type |
| RubyUpload.DecodeInfo | ruby/micronucleus.rb:26-39 | `info` succeeds exactly when the reply has 3 bytes and a non-zero page size; then the flash length is big endian, the page count is the ceiling of length over page size, the write sleep is the fourth byte (0 when missing) and the version is bcdDevice's two bytes |
| RubyUpload.NextSlice | ruby/micronucleus.rb:63-64 | the slice `each_slice` yields next, padded when the uploader pads |
| RubyUpload.PadSlice | ruby/micronucleus.rb:64 | the slice followed by 0xFF up to the page size |
| RubyUpload.SliceStep | ruby/micronucleus.rb:63-70 | one slice: its `write_page` request, its sleep, then the rest of the image from the next address |
| RubyUpload.ChunksStep | ruby/micronucleus.rb:63 | `each_slice` yields the first page, then slices the rest |
| RubyUpload.ChunkCount | ruby/micronucleus.rb:63 | there are ceil(L/P) slices, padded or not |
| RubyUpload.ChunkAt | ruby/micronucleus.rb:63-64 | slice k is the image from k·P on, at most P bytes, and when padded filled with 0xFF to exactly P |
| RubyUpload.ChunksReassemble | ruby/micronucleus.rb:63-64 | the slices joined give back the image, followed by the padding when padded |
| RubyUpload.UnpaddedSliceLength | firmware/upload.rb:63-68 | without padding no slice is empty and only the last one may be shorter than a page |
| RubyUpload.FullPagesBefore | ruby/micronucleus.rb:62-69 | every slice before slice k is a full page, so `address` reaches k·P |
| RubyUpload.WriteEventAt | ruby/micronucleus.rb:67-69 | request k of a run of writes is at the address of the bytes already sent, and a sleep follows it |
| RubyUpload.ProgramWriteAt | ruby/micronucleus.rb:62-70 | the k-th `write_page` of `program=` is at address k·P and carries page k of the image: padded to P and announced as P by `Micronucleus`, bare and announced as its length by `MicroBoot` (firmware/upload.rb:62-68) |
| RubyUpload.Uploader.constructor | ruby/micronucleus.rb:22-24 | no info cached and no handle open |
| RubyUpload.Uploader.ControlTransfer | ruby/micronucleus.rb:95-111 | opens the handle on first use, then logs the transfer |
| RubyUpload.Uploader.GetInfo | ruby/micronucleus.rb:26-42 | the result is DecodeInfo of the device's reply; one `get_info` request on the first call only; the decoded info is cached |
| RubyUpload.Uploader.SleepPages | ruby/micronucleus.rb:48-50 | one write sleep per page, nothing else |
| RubyUpload.Uploader.Erase | ruby/micronucleus.rb:44-52 | succeeds exactly when `info` does; then the erase request and one sleep per page follow the info events |
| RubyUpload.Uploader.Program | ruby/micronucleus.rb:55-71 | a failing `info` or an image longer than the flash raises before anything is erased; otherwise erase, then every slice's request and sleep in order |
| RubyUpload.Uploader.WriteSlices | ruby/micronucleus.rb:62-70 | the `each_slice` loop logs WriteEvents of the slices from address 0 |
| RubyUpload.Uploader.SendSlice | ruby/micronucleus.rb:67-68 | one `write_page` request for the slice at `address`, then one write sleep |
| RubyUpload.Uploader.Finished | ruby/micronucleus.rb:73-87 | succeeds exactly when `info` does and then closes the handle; `Micronucleus` fetches `info` before the run request, `MicroBoot` (firmware/upload.rb:71-83) sends the run request first; one sleep per page follows |
| PyIhex.Slice | upgrade/generate-data.py:24 | Python's `line[i:j]` is clipped to the line, never longer than j - i |
| PyIhex.ByteAtIsSlice | upgrade/generate-data.py:23-27 | the byte read at p is `int(line[p:p+2], 16)` |
| PyIhex.Bytes | upgrade/generate-data.py:45-47 | n successive `getbyte` calls give n bytes when none raises |
| PyIhex.BytesOfFour | upgrade/generate-data.py:45-47 | the header is four bytes read in a row, and raises when any of them does |
| PyIhex.WordsStep | upgrade/generate-data.py:53-55 | one pass of the data loop: a word, then the loop on length - 2 |
| PyIhex.WordsStop | upgrade/generate-data.py:53-55 | a length that skips 0 runs the loop into the end of the line, which raises |
| PyIhex.WordsCount | upgrade/generate-data.py:53-55 | a data loop that ends had an even, non-negative length and read one word per two bytes |
| PyIhex.FieldByteOrder | upgrade/generate-data.py:29-33 | `getaddress` reads big endian, `getword` little endian |
| PyIhex.PyInt16OfHex | upgrade/generate-data.py:24 | two upper-case hex digits read back as the byte they spell |
| PyIhex.SpelledByte | upgrade/generate-data.py:23-27 | a line spelling byte b at p reads b there |
| PyIhex.SpellsReads | upgrade/generate-data.py:23-27 | spelled bytes are read back as themselves |
| PyIhex.LEWords | upgrade/generate-data.py:32-33 | pairs of bytes as words, one word per pair |
| PyIhex.WordsOfRead | upgrade/generate-data.py:52-55 | the data loop reads an even run of bytes as their little-endian words and their sum |
| PyIhex.NoLineExactly | upgrade/generate-data.py:36-42 | the None triple comes exactly from a line shorter than 11 characters or without the ':' mark |
| PyIhex.DataLineRead | upgrade/generate-data.py:43-57 | a type-0 line is read as its big-endian address, its data as little-endian words, and its byte sum modulo 256 |
| PyIhex.StartLineRead | upgrade/generate-data.py:48-57 | a type-3 line sets the segment and the start address, the start standing for the line's address |
| PyIhex.OtherLineRead | upgrade/generate-data.py:46-57 | any other type keeps the address, skips the data and takes the first data byte as the checksum byte |
| PyIhex.RecordReads | upgrade/generate-data.py:23-27 | a record's text reads as the record's bytes |
| PyIhex.RecordBytesFields | upgrade/generate-data.py:45-47 | a record's bytes hold its length, its address in two bytes, its type and its data |
| PyIhex.DataRecordRead | upgrade/generate-data.py:43-57 | an even-length data record, whatever its checksum byte, is read as its address, its little-endian words and its total byte sum modulo 256 |
| PyIhex.DataRecordChecksum | upgrade/generate-data.py:56-57 | the checksum returned is 0 exactly when the record carries the format's checksum byte |
| PyIhex.StopAt | upgrade/generate-data.py:60-63 | the first line that is not a record, every line before it being one |
| PyIhex.ReadAllStep | upgrade/generate-data.py:60-65 | a parsed line's words come before those of the lines after it |
| PyIhex.ReadAllUntilStop | upgrade/generate-data.py:59-66 | `readlines` succeeds exactly when the first non-record line is a None triple or the file ends first, and then holds the records' words in file order |
| PyIhex.ReadAllIgnoresRest | upgrade/generate-data.py:62-63 | nothing after a None triple is read, not even a line that would raise |
| PyIhex.ReadAllIgnoresChecksums | upgrade/generate-data.py:57-65 | the checksum never changes what `readlines` collects |
| PyIhex.DataLines | upgrade/generate-data.py:59-66 | a file of data records has one line per record |
| PyIhex.DataFileLoads | upgrade/generate-data.py:59-66 | a file of data records loads all their words in order, whatever their checksum bytes, and leaves the start address as it was |
| PyIhex.Parses | upgrade/generate-data.py:59-66 | one parse per line of the file |
| PyIhex.Ihex.constructor | upgrade/generate-data.py:11-16 | start, size and checksum 0, no data, first line next |
| PyIhex.Ihex.GetChar | upgrade/generate-data.py:18-21 | the character at `pos`, and `pos` moves on by one |
| PyIhex.Ihex.GetByte | upgrade/generate-data.py:23-27 | the byte ByteAt reads; on success `pos` moves by 2 and the sum grows by the byte |
| PyIhex.Ihex.GetAddress | upgrade/generate-data.py:29-30 | the big-endian address at `pos`, both bytes added to the sum |
| PyIhex.Ihex.GetWord | upgrade/generate-data.py:32-33 | the little-endian word at `pos`, both bytes added to the sum |
| PyIhex.Ihex.ReadWords | upgrade/generate-data.py:53-55 | the data loop's words and sum are Words(line, 9, length) |
| PyIhex.Ihex.ReadLine | upgrade/generate-data.py:35-57 | reads the next line ("" past the end) and returns ParseLine of it, updating start and segment as the record says |
| PyIhex.Ihex.ReadRecord | upgrade/generate-data.py:43-57 | the fields of a line starting with ':' |
| PyIhex.Ihex.ReadBody | upgrade/generate-data.py:48-57 | the fields after the header, by record type, then the checksum byte |
| PyIhex.Ihex.ReadStart | upgrade/generate-data.py:48-51 | the type-3 fields StartBody reads |
| PyIhex.Ihex.ReadData | upgrade/generate-data.py:52-55 | the type-0 fields DataBody reads |
| PyIhex.Ihex.ReadAndAppend | upgrade/generate-data.py:61-65 | one pass of the loop: a raise ends `readlines` with an error, a None triple ends it unchanged, a record appends its words and grows `size` |
| PyIhex.Ihex.ReadLines | upgrade/generate-data.py:59-66 | `readlines` returns ReadAll's words for the remaining lines, or raises exactly when ReadAll does |

## Left out

Time, hardware and the operating system:

- Delays and sleeps are recorded as events in the mocks' logs, not as real time. This covers Ruby's `sleep`, `usleep` and `delay` on the host, and `_delay_ms`/`_delay_us` in the firmware.
- The firmware's hardware handling is not modelled: interrupts (`cli`/`sei`), the watchdog, the LED, the clock prescaler of LOW_POWER_MODE, OSCCAL tuning and restoring, `bootLoaderInit`, and the jump into the application in `leaveBootloader`. Where these decide a branch they are inputs: `Tick` in FirmwareMain, `stay` in FirmwareBoot, `appPresent`.
- Detecting a USB bus reset and resynchronising after a collision in the V2 main loop (firmware/main.c:444-495 and 556-575) are hardware timing. The model only sees whether the 5 ms wait expired.
- The bit-level USB signalling of the assembler interrupt routine is not part of this model. That includes bit stuffing, handshakes and NAK timing.
- `printf`, `puts`, `fprintf` and progress callbacks only print, so they are left out. The progress argument of `micronucleus_eraseFlash` and `micronucleus_writeFlash` is one of these.
- Command-line option parsing and device enumeration outside the modelled scans are left out: `Micronucleus.all`, `MicroBoot.all`, `inspect`, and `main` beyond its size checks.
- Opening files is left out. A file is given as its lines, its characters or the chunks `read` returns. The one exception is `mnflash_raw_load`, where the failure to open is modelled as a flag.
- Allocation failures of `malloc`, `calloc` and `realloc` are not modelled. This covers mnflash's page buffer and name buffer, the blob in `firmware_blob_new`, and the libusb handles.
- The retries inside mnflash/lib/usb-device.c are not modelled; each custom read or write is one event with a given result.
- `mnflash_usb_custom_write_once` is called by `mnflash_erase` and `mnflash_start_app`. Its definition is not part of this model, so it is modelled like `mnflash_usb_custom_write`: one recorded request and a given result.
- The ELF loader of mnflash lib/load-elf.c needs libelf and is not part of this model.
- upgrade/upgrade.c is an older copy of firmware/upgrade.c and is not part of this model.
- The output files the scripts write are left out: bootloader_data.c from upgrade/generate-data.py:72-83, and the text of upgrade/generate-data.rb. What is modelled is the data they print.

Contracts stated weaker than the source, or build options fixed in the model:

- FirmwareMain.Bootloader.EraseApplication: on the ATtiny841, 441 and 1634 the erase loop steps down four pages at a time (firmware/main.c:180-181). The model is the one-page step every other target is built with.
- FirmwareMain.Bootloader.constructor: the model is the default build with FAST_EXIT_NO_USB_MS set to 0. The idle-counter bias (firmware/main.c:420-429) is compiled out in that build, and it starts from the given low byte. So are the bias on a bus reset (main.c:478-481) and the reset on non-standard requests (main.c:534-538).
- FirmwareMain.Bootloader.CarryOutCommand: `boot_spm_busy_wait` on the ATmega and ATtiny828 targets is not modelled, and neither is the OSCCAL switch of OSCCAL_SLOW_PROGRAMMING. Both only wait or retune the clock.
- FirmwareBoot.Bootloader.FunctionWrite: requires a packet of whole words, at least one. For a packet of 0 or an odd number of bytes the `uchar` length of usbFunctionWrite wraps at `length -= 2`, and the loop runs past the packet (firmware/bootloader.c:516-546).
- FirmwareBoot.RjmpRoundTrip: with two-word vectors the round trip is proved only for flash sizes that are a multiple of 4096 words. Otherwise a backward jump wraps at the end of flash rather than at 4096 words.
- UsbDriver.TxBlock: the transmit length counts the two CRC16 bytes, but their value is not computed. `usbCrc16Append` is part of the assembler routine.
- UsbDriver.Driver: `USB_READ_FLASH` is not defined in the sources. It is modelled as V-USB's `pgm_read_byte`, reading the `flash` of the image given to the driver.
- UsbDriver.Driver: the image must satisfy `ImageOk`: every descriptor is shorter than 255 bytes, and the two RAM addresses the standard replies point at lie inside program memory.
- FirmwareMain.ConfigReply: the reply is modelled as its bytes. The STORE_CONFIGURATION_REPLY_IN_RAM build (firmware/main.c:279-281), which serves the same bytes from RAM, is not told apart.
- UnUsb.UnUsb.Wait: while blocked, the host's polls are given as a sequence. Whether a host ever polls is outside the model, so a wait that never ends shows up as the polls running out.
- UnUsb.UnUsb.FunctionSetup: requires the request buffer to reach `data[10]`. usbFunctionSetup writes its IN reply there, past the 8-byte packet (examples/import/unusb.hpp:86).
- UnUsb: `poll(milli)` counts time with `micros()` and is left out.
- MnflashIhex.Load: a piece beginning with a NUL character gives `slen` 0, and load-ihex.c:95 then reads `linebuf[-1]`. The model takes such a piece as a line that is too short.
- MnflashIhex.Load: `linebuf` bytes past the terminator, left over from an earlier and longer piece, are read as a character that is not hexadecimal. The C may find old digits there. The two stale bytes `hex2word` leaves in `b1`/`b2` are modelled, as parameters of `WordReading`.
- MnflashFirmware.Disk: the file loaders are part of the `Disk` value, as the blob each (format, path) pair loads. They are not tied to the models of `mnflash_raw_load` (LoadRaw) and `ihex_load` (MnflashIhex), whose inputs are chunks and `fgets` pieces, not paths.
- MnflashUploader.Upload: requires a non-zero page size, since the C divides by it. The `int` product of the erase wait (uploader.c:111-112) is not wrapped.
- LibSession.Nucleus.EraseFlash: the erase wait loop steps a float from 0 to 1 by 0.01 and waits `erase_sleep / 100` each time (micronucleus_lib.c:141-149). The model records the whole wait as one delay of `erase_sleep` milliseconds.
- LibSession.Nucleus.WriteFlashPages: requires the program buffer to cover the bytes the loop reads. With the test `address + page_address > program_size` it reads `program[program_size]`, one byte past the end. On protocol 2 it also requires the page size to be a multiple of 4, because the loop sends four bytes per request and for any other page size it reads `page_buffer[i+1..i+3]` past the end of the page buffer.
- LibSession: MAX_MAJOR_VERSION comes from a header that is not part of this model and is a parameter.
- CmdlineHex.StoreData: requires the record to lie inside the buffer. A record with a negative address (an address field spelled with `-`) or past the end of `dataBuffer` writes outside it in C. The record loop's specification stops with `OutOfBuffer` at the negative case.
- CmdlineHex.RawImage: requires the file to fit the buffer. `parseRaw` writes every byte it reads without a bound (commandline/micronucleus.c:421-428).
- HidUpload.UploadData: the memory the blocks are read from is given as bytes. The rounded end may read past `dataBuffer`, which is undefined in C.
- RubyHex.DecodeRecord: reads the hexadecimal fields as `strtol` does (RubyHex.HexProgram.Parse inherits this). Ruby's `String#to_i(16)` also accepts a `_` between two digits, so `"1_2".to_i(16)` is 0x12. The model stops at the `_` and gives 1, so it differs only on malformed fields.
- RubyUpload.DecodeInfo: the write sleep is kept in integer milliseconds; the source converts it to float seconds. The float ceiling of `flash_length.to_f / page_size` is an exact integer ceiling, which agrees for 16-bit lengths.
- CalcSize.Script: the page count is an exact rational ceiling, where Python divides in floating point; the two agree for any size report below 2^53 bytes. `str.split()` separates on the ASCII white-space characters only, and `int()` reads ASCII digits only; Python also accepts Unicode white space and digits.
- PyIhex.Ihex.ReadLine: a file is given as its lines, and reading past the end gives "".

## Findings

| source | as written | input that shows it | evidently intended | confidence | as-written member | corrected member |
|---|---|---|---|---|---|---|
| firmware/upload.rb:140 | `line[9.. 9 + (length * 2)]` is an inclusive range, one character longer than the data field, and `each_slice(2)` turns the extra character into one more value | `:0100000041BE` stores 0x41 at address 0 and also 0x0B, the checksum's first digit, at address 1 | the exclusive range `...`, as in ruby/micronucleus.rb:150 and upgrade/hexprogram.rb:29 | not executed; certain for every data record; a following contiguous record overwrites the extra byte, so it survives only after the last record of a run | RubyHex.InclusiveSliceStoresExtraValue | RubyHex.RoundTrip |
| mnflash/load-ihex.c:61-70 | `hex2word` tests `hex2byte(...) >= 0`, but `hex2byte` returns 0 or 2, so it always returns 1 and keeps `b1`/`b2` uninitialised on a bad digit | the file `:00ZZZZ01X`: the address check at line 151 passes, and the end-of-file record sets the entry point from stale bytes | `> 0`, so that a bad address field refuses the file | not executed; likely, the two tests are always true as written | MnflashIhex.UnparsedAddressLoads | MnflashIhex.Hex2Word |
| mnflash/lib/load-raw.c:89-90 | a 4-byte vector is refused when it is not an `rjmp` OR not a `jmp`, which is every vector | fifteen `jmp` vectors `0C 94 xx xx` (LoadRaw.JmpTable): "raw file does not seem to contain an interrupt table" | refuse only a vector that is neither (`&&`) | not executed; certain, since no byte is both 0xCx and 0x94 | LoadRaw.AsWrittenLoadsOnlyRjmp | LoadRaw.JmpTableLoads |
| mnflash/lib/uploader.c:162 | `page_now` is a `uint16_t` (line 132) that steps by `page_size` while below `end` | a device reporting 65535 bytes of program memory with 64-byte pages and a firmware ending at 65534: `page_now` goes from 65472 to 0 and the loop starts over | a counter wide enough for `end + page_size` | not executed; plausible, needs a device reporting more than 65472 bytes of program memory | MnflashUploader.PageNowWraps | MnflashUploader.Uint16StepAgrees |
| firmware/usbdrv/usbdrv.c:213-242 | GET_STATUS, GET_CONFIGURATION and GET_INTERFACE point `usbMsgPtr` at RAM (`usbTxBuf + 9`, `&usbConfiguration`), but `usbDeviceRead` (usbdrv.c:288-312) reads every reply with `USB_READ_FLASH` | SET_CONFIGURATION 1, then GET_CONFIGURATION: the reply is the program-memory byte at the address of `usbConfiguration`, not 1 | the RAM contents: 0 0, the configuration, 0 | not executed; likely, and possibly accepted to save code, since the note at usbdrv.c:12-16 says replies only come from flash | UsbDriver.ConfigurationNotReadBack | UsbDriver.ConfigurationReadBack |
