# PicoFlasher core, modelled in Dafny

PicoFlasher is firmware for an RP2040 board. It turns the board into a USB service tool for
three parts of a games console: its SPI-attached NAND flash, its eMMC/SD card and its ISD1200
voice chip. This project models the protocol code between that hardware and the USB host, and
proves properties of it:

- **The SD/eMMC bus driver** (`sdio.c`):
  - the 48-bit command frame and its CRC-7;
  - response capture, the one-bit realignment of the captured words and R1/R2/R3 validation;
  - the scatter/gather control-word list in `ctrl_words` and the data state machine's
    instruction stream in `pio_cmd_buf`, both built in place;
  - single- and multi-block command sequencing;
  - read and write completion;
  - the `sd_init` handshake, `read_status` and the card-register accessors.

  The card is an oracle `Bus`: a queue of what the command state machine captures for each
  coming command, and the list of commands sent so far. Completion polls read a given history
  of data-path observations.
- **The NAND register protocol** (`spiex.c`, `xbox.c`):
  - the SPI frames that read and write one controller register;
  - page read, block erase and page write as ordered register sequences over an oracle
    controller;
  - the bounded ready poll and the cached flash configuration.
- **The ISD1200 voice chip** (`isd1200.c`):
  - its command frames;
  - the identification check at init;
  - the cached device id;
  - its status-polling waits.
- **The USB string descriptors and configuration descriptor** (`usb_descriptors.c`):
  - the ASCII to UTF-16 conversion into the 32-unit `_desc_str`;
  - the length chain of `desc_fs_configuration`.
- **The CDC request framing** (`main.c`):
  - how many bytes a request needs;
  - the header layout;
  - the replies to GET_FLASH_CONFIG, READ_FLASH and WRITE_FLASH;
  - the 50 ms LED rate limiter.

Each core file keeps its own form:

- **Stateful code becomes a class.** The SD driver's statics are `SdDriver.Driver`, the NAND
  driver with its register trace is `Xbox.Nand`, the voice-chip link is `Isd1200.Voice`,
  `_desc_str` is `UsbDescriptors.StringBuffer`, and the CDC callback state is `Cdc.Bridge`.
  Their methods are proved against specification functions of the old state.
- **Computed values become functions with lemmas.** This covers frames, layouts and
  validation.

Three behaviours of the code that the model keeps as written:

- The captured response is realigned by a one-bit right shift of the word stream
  (sdio.c:360-364).
- `sd_init` ignores the return codes of its commands (sdio.c:589-624) and carries on to the
  next one.
- An R1 reply whose echoed command index differs is only logged (sdio.c:384-387). The reply
  is still accepted.

Two facts the code relies on come from headers outside this model:

- The CRC-7 table: crc7.h is not part of this model. The table is defined from the polynomial
  x^7 + x^3 + 1, left-aligned, so each entry holds the 7-bit CRC in bits 7..1. `Crc7.TableEntry`
  proves this, and sdio.c:322 and sdio.c:396 rely on it.
- The command numbers and R1 status bits of mmc_defs.h: mmc_defs.h is not part of this model.
  The values are the standard MMC/SD ones (section 4.7.4 of the SD Physical Layer Simplified
  Specification, and section 4.10.1 for the card status).

## Model

| member | source | states |
|---|---|---|
| Crc7.TableEntry | sdio.c:317-322 | each table entry is the bit-serial CRC-7 (x^7+x^3+1) of its index byte, held in bits 7..1 with bit 0 clear |
| Crc7.ChainIsSerial | sdio.c:317-321 | the chain `crc = crc7_table[crc ^ b]` over any message equals the bit-serial CRC-7 register after that message |
| Crc7.ChainEven | sdio.c:322 | a chain over a non-empty message leaves bit 0 clear, so `crc \| 1` only adds the end bit |
| Crc7.ByteStepIsLookup | sdio.c:317-321 | pushing one byte through the serial register is one table lookup on `crc ^ b` |
| Crc7.CheckByteResidue | sdio.c:391-396 | feeding a frame's own check byte after its CRC always leaves the same residue, independent of the frame |
| ByteOrder.Bswap | sdio.c:360-364 | `__builtin_bswap32(x)` stored little-endian is the big-endian byte sequence of `x` |
| ByteOrder.BeWordOfBytes | sdio.c:310-313 | splitting a word into its four big-endian bytes and packing them back gives the word |
| ByteOrder.BeBytesOfWord | sdio.c:324-325 | packing four bytes big-endian and splitting the word gives the bytes |
| ByteOrder.LeRoundTrip | spiex.c:40-47 | a little-endian 32-bit store then load gives the word back, and a load then store gives the bytes back |
| ByteOrder.Be16RoundTrip | isd1200.c:135 | a 16-bit value stored most significant byte first reads back as itself, and conversely |
| ByteOrder.LeWordsOfStream | xbox.c:115-131 | storing words one after another and loading the buffer back four bytes at a time gives the same words |
| ByteOrder.LeStreamOfWords | xbox.c:168-186 | loading a buffer as words and storing them gives the same bytes |
| ByteOrder.LeWordsAppend | xbox.c:168-186 | the words of a buffer split on a word boundary are the words of its parts |
| ByteOrder.LeStreamAt | xbox.c:120 | word i of a stored stream sits at bytes 4i..4i+4 |
| SdDefs.RcaArg | sdio.c:613 | `(rca_high << 24) \| (rca_low << 16)` has a zero low half, and its two upper bytes are rca_high and rca_low |
| SdDefs.R1CurrentState | sdio.c:931 | current_state is a 4-bit field of the card status |
| SdCommand.Frame | sdio.c:310-324 | the frame is 6 bytes: `cmd \| 0x40`, the argument big-endian, then CRC-7 of those five bytes with the end bit set; its top two bits are 01 exactly when cmd < 0x80 |
| SdCommand.PackedCommand | sdio.c:324-335 | the two words sent are the frame's six bytes most significant first, the low half of the second word zero |
| SdCommand.FrameRoundTrip | sdio.c:310-335 | for cmd < 64 a sent frame passes the receiver's CRC test and decodes to its index and argument |
| SdCommand.ReceiveLength | sdio.c:337-352 | the response length is 0 bytes for GO_IDLE_STATE, SET_DSR and GO_INACTIVE_STATE, 17 for SEND_CSD, ALL_SEND_CID and SEND_CID, and 6 for every other index, in both directions |
| SdCommand.CheckR1 | sdio.c:382-404 | an R1 reply that does not panic yields SD_OK and bytes 1-4 read big-endian |
| SdCommand.CheckR3 | sdio.c:376-381 | an R3 reply always stores bytes 1-4 big-endian, and returns SD_OK exactly when byte 0 is 0x3F and bits 4..1 of byte 1 are clear, SD_ERR_BAD_RESPONSE otherwise |
| SdCommand.Interpret | sdio.c:366-410 | the check is picked by index: R2 copies bytes 1-16 and succeeds, R3 applies the OCR check, all others the R1 check |
| SdCommand.CheckR1Accepts | sdio.c:389-399 | the R1 check accepts a reply exactly when its byte 5 is the CRC-7 of bytes 0-4 with the end bit, whatever the echoed index |
| SdCommand.R1RoundTrip | sdio.c:382-404 | a card-built R1 reply, with any padding, is accepted with its status word |
| SdCommand.R3RoundTrip | sdio.c:376-381 | an OCR reply stores the OCR and succeeds exactly when OCR bits 28..25 are clear |
| SdCommand.RealignShifts | sdio.c:360-364 | the word fix-up, read back as little-endian bytes, is the captured big-endian bit stream shifted right by one bit |
| SdCommand.RealignedMemory | sdio.c:360-364 | after the fix-up of `receive_buf` the bytes are the capture shifted right by one bit with a 0 entering first |
| SdCommand.ShiftFromBits | sdio.c:360-364 | bit 0 of the realigned stream is 0 and bit j+1 is captured bit j |
| SdCommand.CaptureRoundTrip | sdio.c:354-364 | a response captured without its leading 0 start bit (the response shifted left by one bit) is recovered byte for byte by the fix-up |
| SdCommand.Realign | sdio.c:360-364 | the in-place fix-up of the five words leaves exactly the realigned words |
| SdCommand.RealignFive | sdio.c:360-364 | the fix-up word by word: each word is bswap of (itself >> 1) with the previous word's low bit on top |
| SdCommand.CommandOutcome | sdio.c:302-418 | a wedged state machine gives SD_ERR_STUCK and only then; a silent reply gives SD_OK with nothing stored; only R2 commands store a 16-byte register; only R1 commands can panic; only R3 commands can return SD_ERR_BAD_RESPONSE |
| SdCommand.RawOutcome | sdio.c:366-410 | for any captured reply: an R3 command stores realigned bytes 1-4 and succeeds exactly when realigned byte 0 is 0x3F and bits 4..1 of byte 1 are clear, SD_ERR_BAD_RESPONSE otherwise; an R1 command succeeds with the status exactly when realigned bytes 0-5 are a CRC-correct R1 frame, and panics otherwise |
| SdCommand.Step | sdio.c:302-418 | each call records the command sent and consumes one capture |
| SdCommand.CommandR1 | sdio.c:382-404 | an R1 command answered by a well-formed reply succeeds with the card's status |
| SdCommand.CommandR2 | sdio.c:366-375 | an R2 command answered with a register stores that register |
| SdCommand.CommandR3Accepts | sdio.c:376-381 | an R3 command accepts the reply the card sent exactly when its byte 0 is 0x3F and bits 4..1 of its byte 1 are clear, rejects every other reply with SD_ERR_BAD_RESPONSE, and stores bytes 1-4 either way |
| SdCommand.CommandR3 | sdio.c:376-381 | an R3 command answered with an OCR stores it and succeeds exactly when bits 28..25 are clear |
| SdBuffers.ReadRecord | sdio.c:743-749 | one block's record in the read list is four words |
| SdBuffers.ReadRecords | sdio.c:741-750 | n block records are 4n words |
| SdBuffers.ReadList | sdio.c:737-753 | the read list for n blocks, terminator included, is 4n+2 words |
| SdBuffers.ReadRecordsShape | sdio.c:741-750 | every address word of the records is nonzero, every count is positive, and the counts sum to 129n |
| SdBuffers.WalkAppend | sdio.c:653-661 | the walk over (address, count) pairs adds the counts of a well-formed prefix to the walk of what follows it |
| SdBuffers.ReadListTotal | sdio.c:653-661 | the walk over the read list for n blocks stops at the (0, 0) pair with a total of 129n |
| SdBuffers.ExtCsdList | sdio.c:964-974 | the EXT_CSD list is six words |
| SdBuffers.ExtCsdTotal | sdio.c:962-985 | the EXT_CSD list is the one-block read list with the register buffer in place of the data buffer, and walks to 129 words |
| SdBuffers.ReadListFits | sdio.c:59-61 | for n ≤ 32 the read list fits the 132 `ctrl_words`, every CRC slot index is below 64, and the receive programs fit the 96 `pio_cmd_buf` words |
| SdBuffers.ReceiveProgram | sdio.c:627-647 | a data-line receive program is two or three instruction words |
| SdBuffers.ReceiveMatchesList | sdio.c:627-647 | one block's receive program pushes 4112 bits plus 16 bits of padding, exactly the 129 words its two records take in |
| SdBuffers.ReadProgram | sdio.c:674-678 | the receive programs for n blocks are 3n words |
| SdBuffers.SdPioCmd | sdio.c:46-51 | `sd_pio_cmd` puts the parameter in the low 16 bits and the jump target in the high half |
| SdBuffers.PioCmdRoundTrip | sdio.c:46-51 | the state machine takes the same target and parameter back out of the word |
| SdBuffers.Transfer | sdio.c:840-845 | `build_transfer` writes four words |
| SdBuffers.WriteRecord | sdio.c:847-862 | one sector takes 20 control words |
| SdBuffers.WriteRecords | sdio.c:847-862 | n sectors take 20n control words |
| SdBuffers.WriteList | sdio.c:839-865 | the write list for n sectors is 20n+6 words |
| SdBuffers.WriteProgram | sdio.c:823-830 | the write program for n sectors is n+1 words |
| SdBuffers.WriteProgramShape | sdio.c:823-830 | the write program is n send_bits commands of 4160 bits, then the jump back to wait_high |
| SdBuffers.SendMatchesRecords | sdio.c:828 | each sector's 4160 send_bits match its 130 FIFO words: the start bit, 128 data words and the sniffed CRC |
| SdBuffers.WriteListFits | sdio.c:59-61 | the write list fits `ctrl_words` exactly when n ≤ 6, and the write program then fits `pio_cmd_buf` |
| SdBuffers.WriteGuardAdmitsOverflow | sdio.c:832-835 | the guard as written lets 7 sectors through, whose list needs 146 of the 132 words |
| SdBuffers.WriteGuardExact | sdio.c:832-835 | the corrected guard admits exactly the sector counts whose list fits |
| SdBuffers.PioFillBeforeGuard | sdio.c:823-835 | from 96 sectors on, the program filled before the guard already overflows `pio_cmd_buf` |
| SdProtocol.StepR1 | sdio.c:382-404 | one R1 command answered by a well-formed reply yields its status and consumes the reply |
| SdProtocol.StepR2 | sdio.c:366-375 | one R2 command answered by a register reply stores it and consumes the reply |
| SdProtocol.StatusPolls | sdio.c:487-505 | `read_status` sends only SEND_STATUS to the card's address, at least once and at most three times |
| SdProtocol.ReadyStopsPolling | sdio.c:499-500 | a card that reports READY_FOR_DATA at once is asked exactly once |
| SdProtocol.NotReadyPollsAll | sdio.c:490-504 | a card whose replies never report READY_FOR_DATA is asked exactly as many times as the retry count allows, all three in `read_status` |
| SdProtocol.OcrLoop | sdio.c:591-597 | the OCR loop sends only SEND_OP_COND(0x40FF8000), at least once unless it spins |
| SdProtocol.OcrReplies | sdio.c:594 | builds the R3 replies of a card that reports the given OCRs |
| SdProtocol.OcrLoopCounts | sdio.c:591-597 | a card that is busy for k replies and then reports busy-clear with CCS is asked exactly k+1 times |
| SdProtocol.IdentifySpec | sdio.c:600-621 | identification sends ALL_SEND_CID and SET_RELATIVE_ADDR, and, unless the firmware panics, SEND_CSD and SELECT_CARD to the address stored from the reply |
| SdProtocol.InitSpec | sdio.c:589-624 | the handshake starts with GO_IDLE_STATE and, when it returns, ends with SEND_CSD and SELECT_CARD to the stored address |
| SdProtocol.RcaFromReply | sdio.c:610-611 | the address is bits 31..16 of the SET_RELATIVE_ADDR reply |
| SdProtocol.IdentifyWellBehaved | sdio.c:600-621 | against a well-behaved card, identification stores its CID, CSD and RCA and sends the four commands in order |
| SdProtocol.InitHandshake | sdio.c:589-624 | end to end, a card busy for k OCR polls and then ready is initialised with its CID, CSD and RCA, and the exact command sequence is recorded |
| SdProtocol.OutOfRangeRc | sdio.c:698-700 | a read's result is SD_OK, or INT_MIN when the OUT_OF_RANGE bit is set |
| SdProtocol.ReadCommands | sdio.c:693-713 | one block sends READ_SINGLE_BLOCK; more send SET_BLOCK_COUNT(n), then READ_MULTIPLE_BLOCK only if that succeeded |
| SdProtocol.ReadCommandsOutOfRange | sdio.c:693-713 | against a well-behaved card a read fails exactly when the card reports OUT_OF_RANGE |
| SdProtocol.WriteCommands | sdio.c:879-894 | one sector sends WRITE_BLOCK; more send SET_BLOCK_COUNT(n), then WRITE_MULTIPLE_BLOCK only if that succeeded |
| SdProtocol.WritePoll | sdio.c:913-937 | write completion is false while the chain or data DMA is busy or the state machine is away from waiting_for_cmd; only then is SEND_STATUS sent |
| SdProtocol.ProgrammingNotDone | sdio.c:924-932 | the write is complete exactly when the data path has drained and the card's current_state is not PRG |
| SdProtocol.WriteWait | sdio.c:942-948 | the write wait sends only SEND_STATUS and ends in SD_OK, a panic, or still polling |
| SdProtocol.ReadWait | sdio.c:775-781 | the read wait returns SD_OK exactly when some observation shows the transfer complete |
| SdDriver.Driver.constructor | sdio.c:55-63 | the card state starts zeroed (empty command trace, zero CID, CSD and RCA, data path idle) and every word of the 132-word `ctrl_words` is zero; `pio_cmd_buf` has 96 words |
| SdDriver.Driver.Command | sdio.c:302-418 | `sd_command` consumes one capture, realigns it in a local buffer and interprets it, as `Step` specifies; the card state is unchanged |
| SdDriver.Driver.ReadStatus | sdio.c:487-505 | the retry loop does what `StatusPolls` specifies |
| SdDriver.Driver.Init | sdio.c:589-624 | the handshake leaves the return code, bus and card identity that `InitSpec` gives, and does not touch the data path |
| SdDriver.Driver.Identify | sdio.c:600-621 | identification stores CID, RCA and CSD as `IdentifySpec` gives, and does not touch the data path |
| SdDriver.Driver.ListTotal | sdio.c:653-661 | the walk loop computes the list total that `Walk` defines |
| SdDriver.Driver.StartReadToBuf | sdio.c:627-647 | the receive program is written at `pos`, nothing else in `pio_cmd_buf` changes, and the next free position is returned |
| SdDriver.Driver.ScatterReadAsync | sdio.c:650-714 | with a list totalling 129n, the n receive programs are queued, the data path is armed, and the read commands are sent as `ReadCommands` gives |
| SdDriver.Driver.SendReadCommands | sdio.c:693-713 | the command half returns and sends what `ReadCommands` gives |
| SdDriver.Driver.BuildReadList | sdio.c:741-752 | the list loop leaves `ReadList(n)` at the front of `ctrl_words` |
| SdDriver.Driver.PutReadRecord | sdio.c:743-749 | block i's four words are appended after the first p words |
| SdDriver.Driver.ReadBlocksAsync | sdio.c:737-754 | `sd_readblocks_async` builds the read list and program, arms the read, sends the read commands as `ReadCommands` gives, and keeps the card address |
| SdDriver.Driver.ReadComplete | sdio.c:716-735 | read completion is true exactly when all three DMA channels are idle, the state machine is at waiting_for_cmd and its TX FIFO is empty; the status is always SD_OK |
| SdDriver.Driver.AwaitRead | sdio.c:775-781 | the spin on read completion returns what `ReadWait` gives |
| SdDriver.Driver.ReadBlocksSync | sdio.c:756-782 | the synchronous read builds the list and program, arms the read, keeps the card address, and returns the start error or, if the read started, the wait's SD_OK |
| SdDriver.Driver.PutTransfer | sdio.c:840-845 | `build_transfer` writes its four words at p and nothing else |
| SdDriver.Driver.PutWriteRecord | sdio.c:847-862 | sector i's 20 words are appended after the first p words |
| SdDriver.Driver.BuildWriteProgram | sdio.c:823-830 | the program loop leaves `WriteProgram(n)` at the front of `pio_cmd_buf` |
| SdDriver.Driver.BuildWriteList | sdio.c:839-865 | the list loop leaves `WriteList(n)` at the front of `ctrl_words` |
| SdDriver.Driver.WriteBlocksAsync | sdio.c:821-911 | with the corrected guard checked first: a rejected count panics with the bus untouched; otherwise the program and list are built, the commands are sent as `WriteCommands` gives, and the write is armed only on success |
| SdDriver.Driver.SendWriteCommands | sdio.c:879-894 | the command half returns and sends what `WriteCommands` gives |
| SdDriver.Driver.WriteComplete | sdio.c:913-937 | write completion does what `WritePoll` gives, and its status is SD_OK unless the status command panicked |
| SdDriver.Driver.AwaitWrite | sdio.c:942-948 | the spin on write completion returns and sends what `WriteWait` gives |
| SdDriver.Driver.WriteBlocksSync | sdio.c:939-950 | a rejected count panics with the bus, buffers and data path untouched; otherwise the list and program are built, the write is armed only on success, and the result is the start error or the wait's polls to the card address held before the call; the address is kept |
| SdDriver.Driver.ReadCid | sdio.c:952-955 | the caller's buffer receives the stored CID |
| SdDriver.Driver.ReadCsd | sdio.c:957-960 | the caller's buffer receives the stored CSD |
| SdDriver.Driver.ReadExtCsd | sdio.c:962-1023 | the one-block list into the register buffer and its receive program are built; SEND_EXT_CSD is sent; its error is returned, or else the wait's result; the card address is kept |
| Spiex.CommandByte | spiex.c:35 | the command byte's low two bits are the direction and bits 7..2 are the register modulo 64 |
| Spiex.ReadFrame | spiex.c:35 | a read frame is 6 bytes: the command byte with direction 01, 0xFF, then four zeros |
| Spiex.WriteFrame | spiex.c:45-47 | a write frame is 5 bytes: the command byte with direction 10, then the value little-endian |
| Spiex.Decode | spiex.c:33-49 | whatever a frame decodes to encodes back to that frame |
| Spiex.CommandBits | spiex.c:35 | a command byte is rebuilt from its register bits and its direction |
| Spiex.FrameRoundTrip | spiex.c:33-49 | every read or write frame built by `Spiex.Encode` decodes to its access, with the register taken modulo 64 |
| Spiex.DirectionsDiffer | spiex.c:35-45 | no read frame and write frame share a command byte |
| Spiex.ReadValueOfReply | spiex.c:40 | the value `Spiex.ReadValue` returns is the little-endian word in reply bytes 2..5 |
| Xbox.Status16 | xbox.c:81-84 | the status is the register's low 16 bits |
| Xbox.Failed | xbox.c:110-111 | `0x8000 \| status` is never 0, fits 16 bits, and keeps the status's low 15 bits |
| Xbox.RowAddress | xbox.c:106 | `lba << 9` has nine clear low bits and carries lba's low 23 bits |
| Xbox.Wait | xbox.c:91-100 | the wait adds between 1 and t+1 accesses to the trace and keeps what was before |
| Xbox.WaitPolls | xbox.c:91-100 | the wait only reads the status register; it returns 0 at the first read with bit 0 clear, and 1 after exactly t+1 reads all with bit 0 set |
| Xbox.Drain | xbox.c:115-131 | draining k words yields k words |
| Xbox.DrainShape | xbox.c:115-131 | each word read is preceded by 0x00 to the command register, and each value is what the data register returned at that point |
| Xbox.ReadBlockResult | xbox.c:102-134 | a page read fails exactly when its wait times out, then returning `0x8000 \| status`; otherwise it reads 128 data and 4 spare words after resetting the address |
| Xbox.Fill | xbox.c:168-186 | filling k words adds two accesses per word |
| Xbox.FillWrites | xbox.c:168-186 | filling sends exactly the given words to the data register and never writes the configuration |
| Xbox.SendWordsWrites | xbox.c:164-186 | sending a page writes exactly its words to the data register |
| Xbox.ProgramWritesNothing | xbox.c:188-201 | the program sequence writes neither data nor configuration |
| Xbox.EraseWrites | xbox.c:136-152 | an erase writes the configuration register and never the data register |
| Xbox.EraseConfigBits | xbox.c:140 | erase sets bit 3 of the configuration register and keeps its other bits |
| Xbox.WriteErasesOnBoundary | xbox.c:154-162 | a page write erases exactly when lba % 0x20 == 0, and a failed erase is returned unchanged with no data written |
| Xbox.WriteSendsPage | xbox.c:164-186 | after a successful or skipped erase, a page write sends exactly the 132 words of page and spare, which stored back are those bytes |
| Xbox.PageWords | xbox.c:168-186 | page and spare are sent as 132 words |
| Xbox.PageWordsStream | xbox.c:168-186 | the words of page and spare, stored little-endian, are their bytes |
| Xbox.OverlayAt | xbox.c:115-131 | bytes stored at an offset are there afterwards, and the rest of the buffer is unchanged |
| Xbox.StoreWord | xbox.c:120 | `*(uint32_t *)p = v` writes v's four little-endian bytes at p and nothing else |
| Xbox.Nand.constructor | xbox.c:74 | the trace is empty and the cached configuration is 0 |
| Xbox.Nand.ReadReg | spiex.c:33-41 | one read access is appended and its value is the controller's answer |
| Xbox.Nand.WriteReg | spiex.c:43-50 | one write access is appended |
| Xbox.Nand.GetFlashConfig | xbox.c:72-79 | register 0 is read only while the cache is 0; a nonzero cache is returned with no access |
| Xbox.Nand.GetStatus | xbox.c:81-84 | one status read; the result is its low 16 bits |
| Xbox.Nand.ClearStatus | xbox.c:86-89 | the status register is written back with the value just read from it |
| Xbox.Nand.WaitReady | xbox.c:91-100 | the countdown loop makes the accesses and returns the verdict that `Wait` gives |
| Xbox.Nand.Settle | xbox.c:110-111 | a timed-out wait is followed by one status read and returns `0x8000 \| status`, else 0 |
| Xbox.Nand.DrainInto | xbox.c:115-131 | the word loop makes `Drain`'s accesses and stores the words read at the offset |
| Xbox.Nand.ReadBlock | xbox.c:102-134 | `xbox_nand_read_block` makes `ReadBlockSpec`'s accesses; on success buffer and spare hold the bytes read, on failure both are untouched |
| Xbox.Nand.EraseBlock | xbox.c:136-152 | `xbox_nand_erase_block` makes `EraseSpec`'s accesses and returns its code |
| Xbox.Nand.FillFrom | xbox.c:168-186 | the write loop sends the words loaded from the buffer, each followed by 0x01 |
| Xbox.Nand.SendPage | xbox.c:164-186 | clears the status, resets the address and sends page and spare words |
| Xbox.Nand.ProgramPage | xbox.c:188-203 | wait, row address, wait, 0x55 0xAA 0x04, wait, stopping at the first timeout |
| Xbox.Nand.WriteBlock | xbox.c:154-204 | `xbox_nand_write_block` makes `WriteBlockSpec`'s accesses and returns its code |
| Xbox.Nand.EraseFirstBlock | xbox.c:156-162 | erases only on an erase-block boundary |
| Isd1200.Reply | isd1200.c:59 | a transfer's reply has the frame's length, byte j being the chip's answer at j |
| Isd1200.IndexFrame | isd1200.c:131-147 | `play_vp` and `exe_vm` send the opcode, then the index most significant byte first |
| Isd1200.IndexRoundTrip | isd1200.c:135 | the chip reads the index back from bytes 1..2 |
| Isd1200.AddressBytes | isd1200.c:155 | `bswap32(offset << 8)` stores four bytes |
| Isd1200.AddressBytesLayout | isd1200.c:153-155 | those bytes are the offset's low 24 bits most significant first, then a zero |
| Isd1200.FlashReadFrame | isd1200.c:151-157 | a flash read frame is 517 bytes starting with 0xA2 |
| Isd1200.FlashReadLayout | isd1200.c:149-157 | it carries page*512 modulo 2^24 as a 24-bit big-endian address, a zero byte, then zeros |
| Isd1200.FlashWriteFrame | isd1200.c:174-182 | a flash write frame is 20 bytes: 0xA0, the address, then the data verbatim |
| Isd1200.FlashWriteLayout | isd1200.c:172-182 | its address is page*16 modulo 2^24, and the data overwrites the zero fourth address byte |
| Isd1200.IdMatches | isd1200.c:61-68 | the identification passes exactly when reply bytes 1..3 are 0x03, 0xEF, 0x20 |
| Isd1200.Poll | isd1200.c:88-91 | a wait only appends polls and at most its budget of them |
| Isd1200.PollSound | isd1200.c:88-91 | every poll sends the probe frame; the wait stops at the first poll that sees the wanted bit, and none before it did |
| Isd1200.PollMoreFuel | isd1200.c:88-91 | a wait that finished finishes the same way with a larger budget |
| Isd1200.PowerUpWaits | isd1200.c:82-92 | power-up sends 0x10, then polls status; on return DBUF_RDY was seen set and then VM_BSY seen clear |
| Isd1200.FlashWriteWaits | isd1200.c:172-189 | flash write sends its frame, then polls until CMD_BSY is clear and then until WR_FIN is set |
| Isd1200.Voice.constructor | isd1200.c:49 | nothing sent yet and `dev_id` is 0 |
| Isd1200.Voice.Transfer | isd1200.c:59 | the frame goes out and the chip's reply of the same length comes back |
| Isd1200.Voice.ReadStatus | isd1200.c:94-101 | sends 0x40 0x00 and returns reply byte 0 |
| Isd1200.Voice.ReadInterruptStatus | isd1200.c:103-110 | sends 0x46 0x00 and returns reply byte 1 |
| Isd1200.Voice.ReadProbe | isd1200.c:88-90 | one poll of the status or interrupt byte |
| Isd1200.Voice.PollUntil | isd1200.c:88-91 | the polling loop does what `Poll` gives |
| Isd1200.Voice.PowerUp | isd1200.c:82-92 | `isd1200_power_up` sends what `PowerUpSpec` gives |
| Isd1200.Voice.Init | isd1200.c:51-73 | after power-up, READ_ID is sent; init succeeds exactly when the ID matches, and only then is `dev_id` set to reply byte 4 |
| Isd1200.Voice.PowerDown | isd1200.c:112-117 | sends 0x12 |
| Isd1200.Voice.Reset | isd1200.c:119-124 | sends 0x14 |
| Isd1200.Voice.ReadId | isd1200.c:126-129 | returns the cached `dev_id` without a transfer |
| Isd1200.Voice.PlayVp | isd1200.c:131-138 | sends 0xA6 and the index big-endian |
| Isd1200.Voice.ExeVm | isd1200.c:140-147 | sends 0xB0 and the index big-endian |
| Isd1200.Voice.FlashRead | isd1200.c:149-160 | sends the read frame; the caller's first 512 bytes become reply bytes 5..516 and the rest is untouched |
| Isd1200.Voice.ChipErase | isd1200.c:162-170 | sends 0x26 0x01, then polls until CMD_BSY is clear |
| Isd1200.Voice.FlashWrite | isd1200.c:172-189 | sends the write frame of the buffer's first 16 bytes and waits as `FlashWriteSpec` gives |
| UsbDescriptors.ChrCount | usb_descriptors.c:150-152 | the character count is the length when at most 31, else 31 |
| UsbDescriptors.Units | usb_descriptors.c:155-158 | each ASCII character is zero-extended into one UTF-16 unit |
| UsbDescriptors.LanguageDescriptor | usb_descriptors.c:134-138 | index 0 gives header 0x0304 (4 bytes, string type) and language ID 0x0409 |
| UsbDescriptors.HeaderCountsItself | usb_descriptors.c:161-162 | every descriptor fits the 32 units, its header's high byte is the string type, and its bLength counts the header |
| UsbDescriptors.DescriptorText | usb_descriptors.c:147-158 | indices 1 to 4 give their string cut to 31 characters |
| UsbDescriptors.UnknownIndex | usb_descriptors.c:144-145 | an index of 5 or more gives NULL |
| UsbDescriptors.StringBuffer.constructor | usb_descriptors.c:124 | `_desc_str` is 32 units |
| UsbDescriptors.StringBuffer.StringCb | usb_descriptors.c:128-165 | the callback writes exactly the descriptor at the front of `_desc_str` and leaves the rest; on NULL nothing is written |
| UsbDescriptors.StringBuffer.CopyUnits | usb_descriptors.c:155-158 | the loop writes the c characters at units 1..c and nothing else |
| UsbDescriptors.U16Le | usb_descriptors.c:83 | `U16_TO_U8S_LE(v)` is v's two bytes, low byte first |
| UsbDescriptors.SplitFlatten | usb_descriptors.c:70-98 | walking entries that start with their own length gives back exactly those entries |
| UsbDescriptors.EntriesSelfSized | usb_descriptors.c:73-97 | every entry of the configuration descriptor starts with its own length |
| UsbDescriptors.ConfigurationConsistent | usb_descriptors.c:64-98 | the array is 75 bytes, the wTotalLength it declares; a host's walk by length bytes finds exactly the eleven entries |
| Cdc.EncodeHeader | main.c:114-120 | a request header is five bytes |
| Cdc.HeaderRoundTrip | main.c:114-120 | the packed header is opcode then little-endian lba, and reading it back gives the same opcode and lba, in both directions |
| Cdc.Needed | main.c:128-138 | a request needs 5 bytes, or 5 + 0x210 exactly when the peeked opcode is WRITE_FLASH |
| Cdc.SentAppend | main.c:146-170 | the bytes of two reply parts in a row are those of the first, then the second |
| Cdc.ReplyShape | main.c:146-170 | GET_FLASH_CONFIG and WRITE_FLASH reply with the 4-byte status; READ_FLASH adds the 0x210-byte page only when the status is 0; an unknown opcode sends no bytes; every reply ends with one flush |
| Cdc.LedStep | main.c:94-108 | `led_blink` does nothing while fewer than 50 ms (wrapping unsigned) have passed; otherwise it drives the current state, records the time and flips the state |
| Cdc.BlinksSpaced | main.c:94-108 | over any run of calls, consecutive pin writes are at least 50 ms apart and alternate, starting from the stored state |
| Cdc.Put | main.c:106 | a blink drives the pin at most once, with the level it decided |
| Cdc.Bridge.constructor | main.c:96-97 | empty FIFO and reply stream, LED off at time 0 |
| Cdc.Bridge.Take | main.c:142 | `tud_cdc_read` takes up to n bytes from the front of the FIFO |
| Cdc.Bridge.LedBlink | main.c:94-108 | the static LED state changes as `LedStep` gives |
| Cdc.Bridge.TxComplete | main.c:174-178 | the transmit-complete callback blinks and does nothing else |
| Cdc.Bridge.RxCallback | main.c:123-172 | blink; an incomplete request leaves FIFO, replies and NAND untouched; a complete one is consumed and served |
| Cdc.Bridge.Serve | main.c:138-171 | exactly the request's bytes are consumed and the opcode is dispatched |
| Cdc.Bridge.Dispatch | main.c:146-170 | each opcode gets its NAND operation and its reply followed by one flush; an unknown opcode only flushes |
| Cdc.Bridge.ServeConfig | main.c:146-150 | replies with the 4 bytes of the flash configuration |
| Cdc.Bridge.ServeRead | main.c:151-158 | reads the page, replies with the status and, if it is 0, the page and spare bytes read |
| Cdc.Bridge.ServeWrite | main.c:159-168 | writes the body's page and spare and replies with the status |
| Cdc.OverlayWhole | main.c:153-157 | bytes stored over a whole buffer are the buffer's new contents |

## Left out

- PIO and DMA register programming is not modelled:
  - `start_single_dma`, `start_chain_dma_read_with_address_size_only` and `start_chain_dma_write`;
  - the field packing of `dma_ctrl_for`, whose control words keep only the fields the driver
    sets;
  - `spoop`, `finish_read` and `sd_response_dma`;
  - `acquiesce_sm`, `sd_set_clock_divider` and `sd_wait`.

  Arming the data path is an `Armed` value, and what a command captures is the card oracle's
  `Capture`.
- The spin-poll mechanics of sdio.c:65-135 are not modelled: iteration ceilings, breakpoints
  and logging. A call that finds the command state machine still busy is a `Busy` capture, which gives
  SD_ERR_STUCK. The waits for the data state machine to reach waiting_for_cmd (sdio.c:664-669,
  sdio.c:868-877, sdio.c:988-991) are assumed to finish.
- The hardware CRC-16 on data blocks is not modelled. The DMA sniffer computes it, and the
  driver only captures read CRCs into `crcs` without checking them.
- Concurrency between CPU, DMA and PIO is not modelled. Completion is read from a given
  sequence of data-path observations.
- Pin, clock and reset setup is not modelled: sdio.c:516-587, `xbox_init`, `xbox_start_smc`,
  `xbox_stop_smc`, `spiex_init`, `spiex_deinit`, `isd1200_deinit`'s SPI teardown, `main()`
  and the USB mount, suspend and resume callbacks.
- Debug output is not modelled: `print_status`, `sd_debug`, the printf calls and the "tsk"
  message for a mismatched echoed index.
- The SPI, PIO-SPI and USB stacks are not modelled: nuvoton_spi.c, pio_spi.h and TinyUSB.
  Each transfer is an oracle call: `Spiex` frames with an Xbox `Device`, the ISD1200 `Chip`,
  and a CDC FIFO of bytes.
- `tud_descriptor_device_cb`, `desc_device` and `tud_descriptor_configuration_cb` only return
  constant tables, and are not modelled. The string callback's `langid` is ignored, as in
  the source.
- C `assert`s become preconditions:
  - `param <= 0xffff` in `sd_pio_cmd`;
  - `block_count <= SDIO_MAX_BLOCK_COUNT` and `block_count != 0`;
  - a whole number of words in `start_read_to_buf`;
  - the list total of 129n in `sd_readblocks_scatter_async`.
- Uninitialised C locals are modelled as follows:
  - a `response` read after a command that stored nothing reads as 0, or as the value from
    the previous iteration in `read_status`;
  - `rca_high` and `rca_low` then come from that value.
- Memory is symbolic. Control words point at named objects (`Addr`), not numeric addresses.
  Address arithmetic on the caller's buffer is not modelled.
- SdDriver.Driver.Init: returns SD_OK where the source returns the result of
  `sd_set_clock_divider(4)`, because clock setup is not modelled.
- SdDriver.Driver.WriteBlocksAsync: models the corrected guard, checked before
  `pio_cmd_buf` is filled. The guard as written is kept as `SdBuffers.WriteGuardAsWritten`
  (see Findings).
- SdProtocol.OcrLoop: the unbounded SEND_OP_COND loop runs over the finite queue of
  captures, and an exhausted queue is reported as `Spinning`. The other unbounded SD waits
  are handled the same way: SdProtocol.ReadWait and SdProtocol.WriteWait run over finite
  observation sequences.
- Isd1200.Voice.PowerUp: the unbounded status polls of `power_up`, `chip_erase` and
  `flash_write` are given a poll budget, and a wait that uses it up reports `false`.
  `PollMoreFuel` shows that a larger budget does not change a wait that finished.
- Cdc.Bridge.ServeRead: the source's single 0x210-byte local buffer is modelled as two
  arrays, one of 0x200 bytes for data and one of 0x10 bytes for spare, so their adjacency is
  not captured. Cdc.Bridge.ServeWrite does the same.
- Cdc.Bridge.Serve: the short-read aborts of main.c:143-144 and main.c:163-164 cannot happen
  in this single-threaded model. The callback only proceeds when the FIFO already holds the
  whole request.
- The USB transmit path is recorded as a sequence of writes and flushes. Packetisation is not
  modelled.
- `board_millis()` is the `now` parameter of the LED operations.

## Findings

| source | as written | input that shows it | evidently intended | confidence | as-written member | corrected member |
|---|---|---|---|---|---|---|
| sdio.c:832 | `sd_writeblocks_async` panics only when `sector_count > (SDIO_MAX_BLOCK_COUNT - 1) / 4`, that is, above 7 | 7 sectors: the list needs 20·7 + 6 = 146 words, and `ctrl_words` holds 132 | reject every count whose list does not fit, that is, above 6 | not executed | SdBuffers.WriteGuardAdmitsOverflow | SdBuffers.WriteGuardExact |
| sdio.c:823-835 | the write program is stored into `pio_cmd_buf` before the guard is checked | 96 sectors: 97 program words go into the 96-word `pio_cmd_buf` before the guard panics | check the guard before filling any buffer | not executed | SdBuffers.PioFillBeforeGuard | SdDriver.Driver.WriteBlocksAsync |
