# Boot loader, display and cloud server: a verified model

This project models the parts of the repository in which state, arithmetic and interleaving meet, and
proves what they are for. `dafny verify dfyconfig.toml` checks all of it.

## What is modelled

**YMODEM, both ends and the line between them** (XMODEM/YMODEM Protocol Reference, sections 4.1, 4.3 and
8.1, and chapter 5).

- `Transfer` is the sender's event machine, `Ymodem` and `Load` the receiver and the loader, `YmodemFrames`
  the packets, `FileHeader` the length field. They are functions, so that theorems can talk about them.
- `ReceiverOctets` says what one attempt of the receiver makes of any octets on the line, and `FileHeader` and
  `TransferRuns` what header and blocks look like there, octet by octet.
- `Upload` and `SerialLoad` are the same code in the form it has in C: contexts with fields, packet buffers
  filled octet by octet, flash memory behind a store address. Every method is proved equal to its function.
- The line is half duplex: whatever the receiver sends is answered before the receiver looks at the line
  again, so a timeout is reported only when nothing is in flight. A finite tape says what happens to each
  octet of the receiver (it arrives, is lost, or becomes another octet, but never an ACK) and to the answer
  (it arrives whole, or is replaced by any octets that the receiver's own checks turn away, together with
  whatever those leave on the line, such as the rest of a packet whose first octet became that of a shorter
  one). It can do each of these things, and nothing else (`Ymodem.LineExactly`). Where the tape ends the line is
  dead. `YmodemFrames.TruncationRejected` and `BurstRejected` show that every lost tail and every burst of up to 16
  bits is among the damage that is turned away.
- `TransferTheorems.Safety`: for every file, every tape and every load limits, flash holds a prefix of the
  file and the two block counts are at most one apart, at every moment before the last allowed try of
  `ymodem_check_packet` brings a duplicate; and if loader or sender reports success and that never happened,
  flash holds the file. Block numbers wrap at 256 as they do in the code.
- `FaultFree.Completion`: on a line that spoils none of the first octets (one for each block and seven more)
  both sides finish with success for every file within the load limits.
- `OneLoss`, `WrongImage` and `WideWindow` say exactly what happens when one octet of the receiver is lost, when
  a duplicate is taken for data, and when the loader reads in windows larger than 1024 octets.
- `SerialLoad.Loader.LoaderSerialYmodem` carries safety and completion down to the flash array.

**Checksums.** `CrcAlgebra`, `Crc16`, `Crc16Table` and `PythonCrc`: the table loop and the Python class both
compute the remainder for x^16 + x^12 + x^5 + 1, and no burst of up to 16 bits goes unnoticed in messages of
any length.

**UART frames.** `UartFrame`, `UartResync` and `UartReceive`: the header scanner of both receivers, against a search for
the first header, and the frame codec.

**Display.** `Ssd1306` and `Circle`: single pixels, bitmaps, and the circle rasteriser.

**Firmware packages.** `Package`, `PackageFormat`, `PackageEdit`, `PackageLaw` and `PacketTool`: writer, reader, what
stands where in the file, the two editors, and what they do to a package as a whole.

**Cloud server.** `Queue`, `Commands`, `PatrolTasks`, `CloudStore`, `Ingest`, `Csv`.

**Fuses.** `Efuse`: burning, bit counting, and the version check.

## What the proofs found

- The last of the 20 tries in `ymodem_check_packet` may bring a duplicate; the `continue` then leaves the loop
  with success and the duplicate is taken for new data. `StaleBlock.SuccessOverWrongImage` is a run in which
  the loader reports success and flash holds the first block twice. `TransferTheorems.SuccessExactly`: a packet
  handed over is a new block if and only if it was not such a duplicate. `WrongImage.WrongImageExactly`: in every
  run, if the first such duplicate comes after k blocks while data is missing, flash holds those k blocks and then
  the last of them (before the first block: the file header) once more. For files whose neighbouring blocks differ,
  a success is a success over the right image if and only if that never happened (`SuccessMeansExactly`).
- The receiver never sends NAK, and a sender that waits for an ACK ignores `C`. On a line that loses exactly one
  octet of the receiver, the loader fails if and only if it is the ACK for the header or for a block before the last;
  the sender does not get through if and only if it is one of these, or the ACK for the last block, the closing `C`
  or the very last ACK (`OneLoss.OneLossExactly`). Losing any other `C`, or an ACK for EOT, does no harm.
- After the last block, when the block count has just wrapped to 0, the closing header with its number 0 may
  be accepted once as a further block. Nothing of it is stored; the two counts then differ by one.
- `RETRY_COUNT` is 0 and is compared with a four-bit counter after it is incremented, so the sender gives up on
  the 16th NAK of a run (`TransferRuns.GivesUpExactly`).
- The final null header clears only 128 octets of the buffer, so its last three data octets are left over; its
  checksum is right all the same. A file of 2^31 octets or more gets an empty length field.
- A window larger than a packet may end early with a rejected packet still in the buffer, and the next read copies
  that packet out as data. For every window of more than 1024 octets, every file of 2048 octets and every other
  second block there is a line on which the loader reports success and flash holds the other block
  (`WideWindow.WideWindowFails`); of all windows from 1024 octets on, only that of 1024 keeps what success promises
  (`SafeWindowsExactly`). The ws63 loader is built with windows of 8192 octets. For such windows the image is right
  as long as no window ends early with a packet in the buffer (`WideSafety`).
- The command loop's copy of the header scanner looks at the size when only its low octet has come, next to the
  stale high octet; the other copy starts over cleanly (`UartResync.LateForgets`). After a size of 0x500 or more it
  finds no header for the rest of the call (`EarlyStaysStuck`); after one from 0x401 to 0x4FF it takes the first
  header with a zero low size octet, if that one is legal, and passes over all others (`EarlyBehindFour`).
  `CopiesAgreeExactly` says for every stream whether the two copies find the same; `StaleSizeMatters` has streams on
  which they do and do not.
- `ssd1306_DrawPixel` computes an inverted color and then does not use it. The rows of a bitmap are counted in eight
  bits, so one of 256 rows has none (`Ssd1306.RowsExactly`).
- Coordinates wrap modulo 256 before the range check. A circle around (cx, cy) on the screen, of radius r < 256,
  touches only pixels within half a pixel of it if and only if r <= cx + 128, cx + r < 256, r <= cy + 192 and
  cy + r < 256 (`Circle.OnScreenExactly`); one of radius 200 around (100, 0) touches (44, 0) (`WrappedCircle`).
- `update_bin` appends a new image under its whole path, and replaces an entry under the whole base name. An item
  given twice counts once if and only if its base name has at most 32 octets and either its path is that bare name or
  the name was there before (`PackageEdit.UpdateTwice`, `AppendedTwice`).
- `rowsToCsv` does not escape its headers; a table is read back if and only if they need no escaping
  (`Csv.CsvExactly`).
- `acknowledgeCommand` does not look at the status, so a cancelled command stays cancelled if and only if nothing
  acknowledges it (`Commands.CancelledStaysExactly`).
- The fuse driver refuses a fuse that is already blown, and `efuse_write_bits` stops there, so a value gets into
  the fuses completely if and only if whatever it asks for from that point on was there before
  (`Efuse.WriteBitsExactly`). `efuse_burn` reports success regardless.

## Model

| member | source | states |
|---|---|---|
| CrcAlgebra.BurstDetected | src/bootloader/commonboot/src/boot_crc16.c:47-63 | two bit strings of equal, arbitrary length that differ only inside 16 consecutive bits leave the division register in different states |
| CrcAlgebra.ClockAllLinear | src/bootloader/commonboot/src/boot_crc16.c:47-63 | the register is linear in its start value and in the message |
| CrcAlgebra.SeedsStayApart | src/bootloader/commonboot/src/boot_crc16.c:47-63 | two different start values end in different registers, over any message |
| CrcAlgebra.RegisterIsRemainder | src/bootloader/commonboot/src/boot_crc16.c:47-63 | clocking a message through the register leaves a remainder of its division by x^16 + x^12 + x^5 + 1 |
| CrcAlgebra.RemainderUnique | src/bootloader/commonboot/src/boot_crc16.c:47-63 | that remainder is the only one of 16 bits |
| Crc16.CrcIsRegister | src/bootloader/commonboot/src/boot_crc16.c:47-63 | the checksum on words is the register on bits, for every seed and message |
| Crc16.CcittIsTheRemainder | src/bootloader/commonboot/src/boot_crc16.c:47-63 | with seed 0 a word is the checksum of a message if and only if its bits are the message's remainder |
| Crc16.CcittConcat | src/bootloader/commonboot/src/boot_crc16.c:47-63 | continuing a checksum over a second part is the checksum of the whole if and only if both parts have octets, or the first is empty and the seed 0, or the second is empty and the checksum so far 0; no octets have the checksum 0 |
| Crc16.CodewordDivides | src/bootloader/commonboot/src/boot_transfer.c:142-144 | a message of at least two octets ends in the checksum of the rest, high octet first, if and only if the whole leaves no remainder |
| Crc16.CrcDetectsBurst | src/bootloader/commonboot/src/boot_crc16.c:47-63 | different messages of equal length that differ only within 16 bits have different checksums |
| Crc16.CodewordDetectsBurst | src/bootloader/commonboot/src/boot_ymodem.c:208-211 | a burst of up to 16 bits anywhere in data and checksum destroys the match |
| Crc16Table.TableIsByteRemainder | src/bootloader/commonboot/src/boot_crc16.c:12-45 | every entry of the table is eight clocks of the register |
| Crc16Table.Crc16Ccitt | src/bootloader/commonboot/src/boot_crc16.c:47-63 | the table loop over a buffer returns the bit-by-bit checksum, and 0 for no buffer or no octets |
| PythonCrc.Crc16Tool.constructor | src/tools/pkg/packet_create.py:17-18 | the 256 table entries agree with the remainders in their low 16 bits |
| PythonCrc.Crc16Tool.Initial | src/tools/pkg/packet_create.py:20-29 | a table entry, never cut to 16 bits, has the right low 16 bits and stays below 2^20 |
| PythonCrc.Crc16Tool.UpdateCrc | src/tools/pkg/packet_create.py:31-38 | one octet moves the value as one octet moves the C routine's |
| PythonCrc.Crc16Tool.Crcb | src/tools/pkg/packet_create.py:46-50 | the Python class and the C routine with seed 0 agree on every octet string |
| YmodemFrames.ParseFrame | src/bootloader/commonboot/src/boot_ymodem.c:156-216 | the receiver recovers number and data of every packet it is sent and leaves what follows it on the line |
| YmodemFrames.TruncationRejected | src/bootloader/commonboot/src/boot_ymodem.c:176-201 | a packet that loses any tail is never taken |
| YmodemFrames.DamageRejected | src/bootloader/commonboot/src/boot_ymodem.c:203-211 | a whole packet behind an intact header is turned away if and only if number and complement or checksum do not fit |
| YmodemFrames.BurstRejected | src/bootloader/commonboot/src/boot_ymodem.c:203-211 | a packet with damage inside 16 consecutive bits of data and checksum is never taken |
| YmodemFrames.ChecksumComparison | src/bootloader/commonboot/src/boot_ymodem.c:208-211 | comparing words, as the receiver does, is comparing the two checksum octets |
| Transfer.ReactToC | src/bootloader/commonboot/src/boot_transfer.c:245-260 | `C` starts the header, the first block or the closing header, and is ignored while an acknowledgement is awaited |
| Transfer.ReactToAck | src/bootloader/commonboot/src/boot_transfer.c:262-279 | an ACK moves the sender to the next block of the file, to EOT after the last, or to success |
| Transfer.ReactToNak | src/bootloader/commonboot/src/boot_transfer.c:222-243 | a NAK repeats the last message or does nothing, never moves the offset, and the 16th gives up |
| Transfer.ReactToOther | src/bootloader/commonboot/src/boot_transfer.c:281-325 | any other octet changes only counters; the third CAN gives up |
| Transfer.NextBlock | src/bootloader/commonboot/src/boot_transfer.c:151-202 | a new data packet is exactly the next block of the file, and the context stays well formed |
| TransferRuns.NewBlocksAreTheFile | src/bootloader/commonboot/src/boot_transfer.c:151-325 | whatever a peer says, the new blocks are blocks 1, 2, 3, ... of the file, each once and in order |
| TransferRuns.BlockLayout | src/bootloader/commonboot/src/boot_transfer.c:151-202 | block k begins with 0x01 and has 128 octets of data if no more are left, and with 0x02 and 1024 otherwise; k mod 256 and its complement, its slice of the file filled up with 0x1A, and a valid checksum |
| TransferRuns.EotOnlyAtTheEnd | src/bootloader/commonboot/src/boot_transfer.c:262-279 | EOT is sent only after every block of the file has been |
| TransferRuns.NakOnlyRepeats | src/bootloader/commonboot/src/boot_transfer.c:222-243 | after any input a NAK brings nothing but the last thing said, and no new block |
| TransferRuns.CountersAreRuns | src/bootloader/commonboot/src/boot_transfer.c:281-325 | while the sender runs, its counters are the lengths of the current runs of NAK and of CAN |
| TransferRuns.GivesUpExactly | src/bootloader/commonboot/src/boot_transfer.c:281-325 | the sender gives up on an octet if and only if it makes 16 NAKs or 3 CANs in a run |
| TransferRuns.FailedMeansGaveUp | src/bootloader/commonboot/src/boot_transfer.c:281-325 | over any input, failure means there was such an octet, and such an octet means failure |
| Upload.PrintDecimal | src/bootloader/commonboot/src/boot_transfer.c:127-140 | digits written backwards and swapped in place are the decimal numeral, and nothing else in the buffer changes |
| Upload.SwapEnds | src/bootloader/commonboot/src/boot_transfer.c:134-140 | the in-place swap reverses its stretch of the buffer and nothing else |
| Upload.Context.Seal | src/bootloader/commonboot/src/boot_transfer.c:142-144 | the checksum goes behind the data, high octet first, and completes the packet |
| Upload.Context.SendFileInfo | src/bootloader/commonboot/src/boot_transfer.c:102-149 | the buffer becomes the file header; a retry sends the buffer again |
| Upload.Context.SendData | src/bootloader/commonboot/src/boot_transfer.c:151-202 | number, offset, status and buffer move on to the next block; a retry sends the buffer again |
| Upload.Context.SendNullInfo | src/bootloader/commonboot/src/boot_transfer.c:204-220 | the buffer becomes the closing header, with three octets left over from before |
| Upload.Context.CStep | src/bootloader/commonboot/src/boot_transfer.c:245-260 | the step for `C` in every status |
| Upload.Context.AckStep | src/bootloader/commonboot/src/boot_transfer.c:262-279 | the step for ACK in every status |
| Upload.Context.NakStep | src/bootloader/commonboot/src/boot_transfer.c:222-243 | the step for NAK in every status |
| Upload.Context.Receive | src/bootloader/commonboot/src/boot_transfer.c:281-325 | one turn of the event loop is one step of the machine, counters included |
| Upload.Context.Serve | src/bootloader/commonboot/src/boot_transfer.c:281-345 | the event loop over any input ends in the state of the whole run and sends what the machine answers |
| FileHeader.HeaderRoundTrip | src/bootloader/commonboot/src/boot_ymodem.c:218-242 | the length printed by the sender is read back unchanged for every length below 2^31, and as 0 above |
| FileHeader.NumeralParsed | src/bootloader/commonboot/src/boot_ymodem.c:362-400 | a decimal numeral that ends in a zero octet is parsed to its value, for every 32-bit value |
| FileHeader.DigitsOfDecimal | src/bootloader/commonboot/src/boot_ymodem.c:384-395 | the digit loop reads a decimal numeral, wherever it stands in the packet |
| FileHeader.NumeralExactly | src/bootloader/commonboot/src/boot_transfer.c:127-140 | the printed numeral stands for its number, in decimal digits without leading zeros |
| FileHeader.HeaderLayout | src/bootloader/commonboot/src/boot_transfer.c:102-149 | the file header octet by octet: number 0 and its complement, `upload.bin`, the length in digits, zeros, and a valid checksum |
| FileHeader.LengthExactly | src/bootloader/commonboot/src/boot_ymodem.c:362-400 | for every text behind any blanks: 0 after 128 blanks, a hexadecimal number behind `0x` or `0X`, else a decimal one in which `a` counts as ten and larger digits are passed over, each modulo 2^32, and refused where an octet is no digit |
| FileHeader.HeaderTaken | src/bootloader/commonboot/src/boot_ymodem.c:218-242 | for every packet taken as the header: with a number other than 0 it opens without a length; otherwise the length its text tells is taken, or refused when it is no number or above 16 MiB |
| ReceiverOctets.AttemptExactly | src/bootloader/commonboot/src/boot_ymodem.c:98-216 | for any octets on the line: an attempt is cancelled if and only if a third CAN comes before any octet that begins a packet and the first octet is not EOT, sees the end if and only if the first octet is EOT, takes or turns away a packet with its own code where one begins, and times out otherwise; and what is left on the line |
| ReceiverOctets.CancelStops | src/bootloader/commonboot/src/boot_ymodem.c:244-331 | a cancellation ends opening and reading at once, with nothing more said or read |
| ReceiverOctets.BlockTurn | src/bootloader/commonboot/src/boot_ymodem.c:302-313 | a whole packet on the line is the next block if its number is the one awaited, is acknowledged again if it is the one before, and with any other number the line is cleared and `C` said |
| ReceiverOctets.EndTurn | src/bootloader/commonboot/src/boot_ymodem.c:317-325 | EOT on the line brings two ACKs, `C`, one attempt for the closing header and a last ACK; during opening one ACK and the next attempt |
| ReceiverOctets.FailedTurn | src/bootloader/commonboot/src/boot_ymodem.c:257-328 | silence and damage clear the line and say `C`; during opening only silence says `C` |
| ReceiverOctets.TriesExactly | src/bootloader/commonboot/src/boot_ymodem.c:244-301 | opening forgets all counters of an earlier transfer and says one `C`; opening and the wait for a block both try 20 times |
| ReceiverOctets.AcceptTrims | src/bootloader/commonboot/src/boot_ymodem.c:286-295 | a block is counted modulo 2^32 and cut to what the file still lacks; behind the end of the file the length wraps |
| EndToEnd.ReactMoves | src/bootloader/commonboot/src/boot_transfer.c:281-325 | an octet leaves the sender where it is or moves it by one step of the protocol, and it says nothing but its current message |
| EndToEnd.PutKeeps | src/bootloader/commonboot/src/boot_ymodem.c:156-170 | an octet of the receiver, whatever the line does to it and to the answer, keeps the invariant of the whole system |
| EndToEnd.GetPacketKeeps | src/bootloader/commonboot/src/boot_ymodem.c:156-216 | an attempt to get a packet keeps the invariant, and EOT is seen only when all data is there |
| EndToEnd.AcceptNewBlock | src/bootloader/commonboot/src/boot_ymodem.c:286-295 | accepting cuts the packet to its part of the file, padding removed, in 32-bit arithmetic |
| EndToEnd.CheckLoopKeeps | src/bootloader/commonboot/src/boot_ymodem.c:297-331 | on a history without a last-try duplicate, success means the next block with its data, for any number of tries |
| EndToEnd.ReadBlock | src/bootloader/commonboot/src/boot_ymodem.c:333-360 | a window of the loader gets the next part of the file whole, or nothing |
| EndToEnd.ReceiveKeeps | src/bootloader/commonboot/src/boot_load.c:21-61 | if `receive_file` or the sender reports success on such a history, flash holds the file |
| EndToEnd.OpenKeeps | src/bootloader/commonboot/src/boot_ymodem.c:244-275 | opening succeeds only with the right file length or with 0, and has stored nothing |
| TransferTheorems.Safety | src/bootloader/commonboot/src/boot_load.c:63-96 | for every file, faulty line and load limits: a prefix of the file in flash and counts at most one apart at every moment, and the file after success, unless a last-try duplicate was taken |
| TransferTheorems.SuccessExactly | src/bootloader/commonboot/src/boot_ymodem.c:297-331 | on any line, a packet handed over as data is a newly accepted block if and only if it is not a duplicate from the last try |
| FaultFree.Completion | src/bootloader/commonboot/src/boot_load.c:63-96 | on a faultless line loader and sender both succeed, for every file within the limits, and flash holds the file |
| FaultFree.FirstBlock | src/bootloader/commonboot/src/boot_ymodem.c:297-331 | after the header: ACK, a timeout, `C`, and the first block is taken |
| FaultFree.NextBlockTaken | src/bootloader/commonboot/src/boot_ymodem.c:297-331 | each ACK brings the next block, and it is taken |
| FaultFree.Closing | src/bootloader/commonboot/src/boot_ymodem.c:317-325 | the ACK for the last block brings EOT; over the next four octets, each arriving or lost, the receiver is through in any case, and the sender if and only if the closing `C` and the last ACK arrive |
| StaleBlock.SuccessOverWrongImage | src/bootloader/commonboot/src/boot_ymodem.c:297-331 | for every file of two blocks there is a run that reports success with the first block twice in flash |
| WrongImage.WrongImageExactly | src/bootloader/commonboot/src/boot_ymodem.c:297-331 | for every file, line and limits: once a duplicate was taken for data after k blocks, flash holds the file if it was complete by then, and otherwise the k blocks followed by block k again, or by the file header for k = 0; success always means the right length |
| WrongImage.SuccessMeansExactly | src/bootloader/commonboot/src/boot_load.c:21-61 | for files whose neighbouring blocks differ: after success flash holds the file if and only if no duplicate was taken for data while data was missing |
| OneLoss.OneLossExactly | src/bootloader/commonboot/src/boot_ymodem.c:297-331 | on a line that loses exactly one octet of the receiver: for which octet the loader fails, and for which the sender does not get through, both if and only if; and if the loader succeeds, flash holds the file |
| OneLoss.LostAckStalls | src/bootloader/commonboot/src/boot_transfer.c:245-260 | after a lost ACK for the header or a block the sender never gets through, however good the line is, and the loader does if and only if it has all the data |
| WideWindow.LoadNarrow | src/bootloader/commonboot/src/boot_load.c:21-61 | with windows of 1024 octets the loader with windows as a parameter is the loader of all other theorems |
| WideWindow.WideSafety | src/bootloader/commonboot/src/boot_ymodem.c:333-360 | for every window of whole blocks up to the buffer size: as long as no window ended early with a packet in the buffer and no duplicate was taken for data, flash holds the beginning of the file, and after success the file |
| WideWindow.WideWindowFails | src/bootloader/commonboot/src/boot_ymodem.c:333-360 | for every window of more than 1024 octets, file of 2048 octets and other second block: success over an image with the other block, on a history without duplicates |
| WideWindow.SafeWindowsExactly | src/bootloader/commonboot/src/boot_load.c:21-61 | of all windows from 1024 octets to the buffer size, success without duplicates means the file is in flash only for that of 1024 |
| SerialLoad.YmodemContext.GetHead | src/bootloader/commonboot/src/boot_ymodem.c:98-154 | the octet loop finds the header, three CANs, a leading EOT or silence, and consumes exactly that much |
| SerialLoad.YmodemContext.GetBody | src/bootloader/commonboot/src/boot_ymodem.c:176-216 | numbers, data and checksum are read into the buffer; every way to fail leaves its own code and buffer contents |
| SerialLoad.YmodemContext.GetPacket | src/bootloader/commonboot/src/boot_ymodem.c:156-216 | deferred ACK, header and body together are one attempt of the receiver |
| SerialLoad.YmodemContext.ParseLength | src/bootloader/commonboot/src/boot_ymodem.c:362-400 | both loops over the buffer compute the parsed length, with its 32-bit wrap and its acceptance of too large digits |
| SerialLoad.YmodemContext.GetInfo | src/bootloader/commonboot/src/boot_ymodem.c:218-242 | the file name is skipped, the length taken over and checked |
| SerialLoad.YmodemContext.Open | src/bootloader/commonboot/src/boot_ymodem.c:244-275 | the context is reset and the header awaited for 20 tries |
| SerialLoad.YmodemContext.Accept | src/bootloader/commonboot/src/boot_ymodem.c:286-295 | counters and packet length after a block is taken, modulo 2^32 |
| SerialLoad.YmodemContext.CheckPacket | src/bootloader/commonboot/src/boot_ymodem.c:297-331 | the retry loop, with its duplicate, cancel, EOT and error branches |
| SerialLoad.YmodemContext.Read | src/bootloader/commonboot/src/boot_ymodem.c:333-360 | the destination gets the packets of the transfer in order, and what does not fit is dropped |
| SerialLoad.Loader.ReceiveFile | src/bootloader/commonboot/src/boot_load.c:21-61 | everything received goes to flash in order behind the store address, and no other octet of flash changes |
| SerialLoad.Loader.LoaderSerialYmodem | src/bootloader/commonboot/src/boot_load.c:63-96 | what is written lies in its window; without a duplicate taken for data it is the beginning of the file however the transfer ends, and the file after success; a good line brings success |
| UartResync.ScanIsSearch | src/bootloader/commonboot/src/boot_uart_auth.c:83-136 | the octet-by-octet scanner with its late reset has a header if and only if there is one, and it is the first with a legal size |
| UartResync.FoundAt | src/bootloader/commonboot/src/boot_uart_auth.c:83-136 | it stops with the last octet of that header, and holds its eight octets |
| UartResync.LateForgets | src/bootloader/commonboot/src/boot_uart_auth.c:103-128 | behind an oversized size field the search starts afresh |
| UartResync.EarlyStaysStuck | src/bootloader/commonboot/src/boot_cmd_loop.c:206-211 | the command loop's copy never recovers from a high size octet of 5 or more |
| UartResync.EarlyBehindFour | src/bootloader/commonboot/src/boot_cmd_loop.c:206-211 | after a size from 0x401 to 0x4FF that copy takes the first header with a zero low size octet if it is legal, and nothing otherwise |
| UartResync.FirstHeaderDecides | src/bootloader/commonboot/src/boot_cmd_loop.c:169-218 | what both copies find, in every case, from the size of the first complete header and what follows it |
| UartResync.CopiesAgreeExactly | src/bootloader/commonboot/src/boot_cmd_loop.c:169-218 | for every stream, exactly when the two copies find the same |
| UartResync.StaleSizeMatters | src/bootloader/commonboot/src/boot_cmd_loop.c:206-211 | streams behind sizes of 0x500 and 0x401 on which the two copies differ, and one behind 0x401 on which they do not |
| UartResync.GarbageSkipped | src/bootloader/commonboot/src/boot_uart_auth.c:83-136 | whatever comes before the first start flag is skipped by both copies |
| UartReceive.FrameRoundTrip | src/bootloader/commonboot/src/boot_cmd_loop.c:220-306 | every encoded frame of 10 to 1024 octets is received from behind any garbage that fits the budget, and what follows is untouched |
| UartReceive.DamagedFrameFails | src/bootloader/commonboot/src/boot_cmd_loop.c:278-306 | damage within 16 bits of what the checksum covers is never accepted |
| UartReceive.ChecksExactly | src/bootloader/commonboot/src/boot_cmd_loop.c:278-306 | the checksum stands low octet first: a frame checks if and only if it leaves no remainder with its last two octets exchanged |
| UartReceive.BudgetExactly | src/bootloader/commonboot/src/boot_uart_auth.c:83-136 | a legal header behind anything without a start flag is found if and only if it ends within 33 octets, or 101 in the command loop |
| UartReceive.UartContext.FrameHeadRx | src/bootloader/commonboot/src/boot_uart_auth.c:83-136 | the loop returns the first legal header within its budget of 33 (or 101) octets, or the right error |
| UartReceive.UartContext.FrameDataRx | src/bootloader/commonboot/src/boot_uart_auth.c:138-163 | the announced octets are read, the checksum is taken out, low octet first, and its place cleared |
| UartReceive.UartContext.ReadFrame | src/bootloader/commonboot/src/boot_cmd_loop.c:278-306 | a frame is accepted if and only if its header is found, it is complete, and its checksum matches everything before it |
| UartReceive.UartAck | src/bootloader/commonboot/src/boot_uart_auth.c:165-179 | what is sent is EF BE AD DE 0C 00 E1 1E 5A, the encryption flag, and a valid checksum |
| UartReceive.LoaderAck | src/bootloader/commonboot/src/boot_cmd_loop.c:261-276 | what is sent is EF BE AD DE 0C 00 E1 1E, the code and its complement, and a valid checksum |
| UartReceive.AckReceived | src/bootloader/commonboot/src/boot_cmd_loop.c:261-306 | both receivers accept every acknowledgement and find its two octets |
| Ssd1306.Display.DrawPixel | she_docs/ssd1306.c:251-270 | exactly one pixel of the screen gets the color; off the screen nothing changes |
| Ssd1306.PaintOne | she_docs/ssd1306.c:264-269 | setting or clearing one bit of one octet of the page buffer changes one pixel of the grid and no other |
| Ssd1306.LitExactly | she_docs/ssd1306.c:264-269 | pixel (x, y) is bit y mod 8, from the lowest, of octet 128 * (y / 8) + x |
| Ssd1306.Display.DrawBitmap | she_docs/ssd1306.c:431-445 | pixel (x, y) of every covered row is lit if and only if the source bit is set, and all other pixels stay |
| Ssd1306.SourceBitExactly | she_docs/ssd1306.c:431-445 | source pixel (x, y) is bit x mod 8, from the highest, of octet 16 * y + x / 8 |
| Ssd1306.RowsExactly | she_docs/ssd1306.c:431-445 | a bitmap of n octets covers n / 16 rows, modulo 256 rows and 2^29 octets, and no more than 64 |
| Circle.CircleAccuracy | she_docs/ssd1306.c:382-420 | for every radius: from (-r, 0) to (0, r), steps of at most one on each axis, and an error of at most max(-x, y) |
| Circle.WithinHalfAPixel | she_docs/ssd1306.c:382-420 | every pixel of the arc is within half a pixel of the true circle |
| Circle.EveryRow | she_docs/ssd1306.c:394-417 | the arc visits every row it passes |
| Circle.EveryColumn | she_docs/ssd1306.c:394-417 | the arc visits every column it passes |
| Circle.NextOnArc | she_docs/ssd1306.c:399-417 | each step stays on the arc and makes progress, so the loop ends, and only from (0, r) |
| Circle.Advance | she_docs/ssd1306.c:399-417 | the error updated by additions is (x+1)^2 + (y+1)^2 - r^2 after every turn |
| Circle.StepExactly | she_docs/ssd1306.c:399-417 | which way each step goes, in squares of the coordinates and the radius |
| Circle.DrawCircle | she_docs/ssd1306.c:382-420 | the loop ends, all four mirror images of every pixel of the quarter arc have the color, coordinates modulo 256, and nothing else has changed |
| Circle.Symmetric | she_docs/ssd1306.c:397-401 | for every radius and centre the touched pixels are symmetric about both axes |
| Circle.RowsTouched | she_docs/ssd1306.c:394-417 | every row of the circle is touched, on the left and on the right |
| Circle.ColumnsTouched | she_docs/ssd1306.c:394-417 | every column of the circle is touched, above and below |
| Circle.OnScreenAccuracy | she_docs/ssd1306.c:382-420 | where no coordinate wraps back onto the screen, clipped or not, every pixel of the screen that is touched is within half a pixel of the circle |
| Circle.OnScreenExactly | she_docs/ssd1306.c:382-420 | for every centre on the screen and every 8-bit radius: all touched pixels of the screen are within half a pixel of the circle if and only if no axis wraps back onto the screen |
| Circle.WrappedCircle | she_docs/ssd1306.c:382-420 | a circle of radius 200 around (100, 0) touches (44, 0), which is not within half a pixel of it |
| Package.PackageRoundTrip | src/tools/pkg/packet_create.py:79-142 | parsing what was packed gives back names, addresses, sizes, kinds and images, for any number of images |
| Package.StripPlain | src/tools/pkg/packet_create.py:126-130 | a name without zero octets survives the reader's stripping |
| Package.ImageStands | src/tools/pkg/packet_create.py:94-107 | each image stands at its start offset, followed by 16 zero octets |
| PackageFormat.HeadExactly | src/tools/pkg/packet_create.py:79-116 | the file begins DF AD BE EF; then, low octet first, the checksum of everything behind it up to the first image, the number of images, and the length of the file, which ends behind the last image |
| PackageFormat.RecordExactly | src/tools/pkg/packet_create.py:94-107 | record k: 32 octets of name filled up with zeros, then start, size, burn address, burn size and kind, four octets each, low octet first; the image where it says, and 16 zero octets behind it |
| PackageFormat.ReadExactly | src/tools/pkg/packet_create.py:117-142 | a file is read if and only if it has a whole head and, for each image it announces, a whole record with a readable name; the entries are what the records say |
| PackageFormat.PackableExactly | src/tools/pkg/packet_create.py:79-116 | what can be written: fewer than 2^16 images, less than 2^32 octets in all, fields of 32 bits, and file names in ASCII |
| PackageFormat.NameExactly | src/tools/pkg/packet_create.py:94-107 | a path is filed under the first 32 octets behind its last slash |
| PackageFormat.StripExactly | src/tools/pkg/packet_create.py:126-130 | zero octets are dropped from a name wherever they stand, and nothing else is |
| Package.ExtentsDisjoint | src/tools/pkg/packet_create.py:94-107 | no two images overlap, gaps included, and none reaches into the directory |
| PackageEdit.UpdateKeepsOthers | src/tools/pkg/packet_create.py:164-217 | an update leaves entries it does not name as they are, in order |
| PackageLaw.UpdateExactly | src/tools/pkg/packet_create.py:182-210 | for all entries and items: the item-by-item loop is the update entry by entry, in which every entry keeps its place and takes, in order, the items filed under its name, and the others are appended in order |
| PackageLaw.UpdatePositions | src/tools/pkg/packet_create.py:182-210 | for items with different names: entry j is as it was unless it is the first with the name of an item, then it is made from that item; behind the old entries stand the new ones, in the order of the items |
| PackageLaw.UpdateFinds | src/tools/pkg/packet_create.py:182-210 | for all entries and items, however often a name is given: what the name finds afterwards |
| PackageLaw.UpdateLaw | src/tools/pkg/packet_create.py:164-217 | packing the updated package and parsing it again gives the update entry by entry, under filed names; other entries are as they were, and what the name of a differently named item finds has its image and each of its fields |
| PackageEdit.UpdateTwice | src/tools/pkg/packet_create.py:182-210 | an item given twice counts once if and only if its base name has at most 32 octets and its path is that bare name or the name was there before |
| PackageEdit.AppendedTwice | src/tools/pkg/packet_create.py:182-210 | an item that names no entry, and whose path is not the name it is filed under, is appended twice when given twice, to any package |
| PackageEdit.DeleteKeepsOthers | src/tools/pkg/packet_create.py:218-254 | a deletion leaves entries it does not name as they are, in order |
| PackageLaw.DeleteDrops | src/tools/pkg/packet_create.py:232-248 | for all entries and paths: of every name as many first entries go as paths name it, and nothing else changes |
| PackageLaw.DropNamed | src/tools/pkg/packet_create.py:232-248 | name by name: of the entries with a name the first ones go, as many as are named or as there are, and the rest stays in order |
| PackageLaw.DeleteLaw | src/tools/pkg/packet_create.py:218-254 | the same after packing and parsing again; where names are distinct, exactly the entries named are gone |
| PacketTool.Lists.CreateAllinone | src/tools/pkg/packet_create.py:79-116 | the file written by position is the package, and nothing is written if and only if something does not fit |
| PacketTool.Lists.ParseAllinone | src/tools/pkg/packet_create.py:117-142 | the parallel lists hold the parsed entries; failure is where unpacking or decoding raises |
| PacketTool.Lists.Update | src/tools/pkg/packet_create.py:182-210 | the edits in place are the update |
| PacketTool.Lists.Delete | src/tools/pkg/packet_create.py:232-248 | the deletions in place are the delete |
| PacketTool.UpdateBin | src/tools/pkg/packet_create.py:164-217 | parse, edit and write, with every failure |
| PacketTool.DeleteBin | src/tools/pkg/packet_create.py:218-254 | parse, delete and write, with every failure |
| Csv.CsvRoundTrip | apps/server/src/db.ts:426-433 | a reader after RFC 4180 recovers headers and every cell, whatever quotes, commas and line breaks they hold |
| Csv.CsvExactly | apps/server/src/db.ts:426-433 | a table is read back if and only if it has headers and none of them needs quotes |
| Csv.FieldReadBack | apps/server/src/db.ts:426-429 | an escaped cell is read back, and reading stops where it ends |
| Csv.EscapeExactly | apps/server/src/db.ts:426-429 | a cell is put in quotes, with its quotes doubled, if and only if it has a quote, a comma or a line feed |
| Csv.CellExactly | apps/server/src/db.ts:426-433 | a cell is the value under its header, and nothing where that is missing or null |
| Csv.TwoColumns | apps/server/src/db.ts:431-433 | headers, commas and line feeds stand where they should, for any two columns and any cells |
| Queue.PullSelects | apps/server/src/db.ts:314-323 | a pull selects exactly the waiting rows of its station, each once, oldest first |
| Queue.FairPull | apps/server/src/db.ts:314-323 | a pull never hands out a row that was handed out before |
| Queue.InTurnPull | apps/server/src/db.ts:314-323 | while rows are in order of age, hand-outs of a station are too, over all pulls |
| Queue.OrderByOrders | apps/server/src/db.ts:316-318 | ordering by creation time keeps the rows and sorts them |
| Queue.PullRows | apps/server/src/db.ts:314-323 | marking row by row, by id, is marking all selected rows |
| Commands.HandedOutOnce | apps/server/src/db.ts:302-352 | in every interleaving no command is handed out twice, and only waiting commands of the station are, oldest first |
| Commands.RunInTurn | apps/server/src/db.ts:302-352 | a run is its calls one after the other, each on the table left by those before, with all hand-outs in order |
| Commands.CancelledIsNeverHandedOut | apps/server/src/db.ts:314-348 | a command cancelled while it waits is never handed out |
| Commands.InCreationOrder | apps/server/src/db.ts:302-323 | while the clock runs forwards every station gets its commands in creation order, over all pulls |
| Commands.CancelledStaysExactly | apps/server/src/db.ts:331-348 | a cancelled command stays cancelled if and only if nothing acknowledges it |
| Commands.RowByRow | apps/server/src/db.ts:302-348 | what creating, pulling, acknowledging and cancelling do to every row, column by column |
| PatrolTasks.HandedOutOnce | apps/server/src/db.ts:354-383 | through every status update no task is handed out twice, and only waiting tasks of the station are, oldest first |
| PatrolTasks.RunInTurn | apps/server/src/db.ts:354-413 | a run is its calls one after the other, each on the table left by those before, with all hand-outs in order |
| PatrolTasks.CancelledIsNeverHandedOut | apps/server/src/db.ts:374-413 | a task that an update takes out of the queue, by cancelling it or by any other allowed status, is never handed out |
| PatrolTasks.InCreationOrder | apps/server/src/db.ts:354-383 | while the clock runs forwards every station gets its tasks in creation order, over all pulls and updates |
| PatrolTasks.RowByRow | apps/server/src/db.ts:354-413 | what creating, pulling and updating do to every row, column by column, with the eight transitions an update may make |
| PatrolTasks.RunAdvances | apps/server/src/db.ts:385-413 | over any run every status only advances, terminal states are final, start times stay |
| PatrolTasks.StampsFit | apps/server/src/db.ts:385-413 | a completed task has been started; a finish time is set exactly for completed and failed tasks |
| PatrolTasks.ReachesExactly | apps/server/src/db.ts:392-402 | one status can be reached from another exactly when it ranks higher, except that a running task cannot be cancelled |
| CloudStore.Store.CreateCommand | apps/server/src/db.ts:302-312 | a pending row is added, unless its id is taken |
| CloudStore.Store.PendingCommands | apps/server/src/db.ts:314-323 | the table after a pull, and the pulled rows as they are then |
| CloudStore.Store.AcknowledgeCommand | apps/server/src/db.ts:331-339 | status, time and message of the row with this id, whatever its status was |
| CloudStore.Store.CancelCommand | apps/server/src/db.ts:341-348 | only a pending or pulled row is cancelled |
| CloudStore.Store.CreatePatrolTask | apps/server/src/db.ts:354-368 | a pending row is added, unless its id is taken |
| CloudStore.Store.PendingPatrolTasks | apps/server/src/db.ts:374-383 | the table after a pull, and the pulled rows as they are then |
| CloudStore.Store.UpdatePatrolTaskStatus | apps/server/src/db.ts:385-413 | an allowed transition sets status and stamps, any other is refused and changes nothing |
| Ingest.ExactlyOnce | apps/server/src/db.ts:245-300 | after any batches the tables are those of the sequence with every repeat of a non-empty id removed |
| Ingest.RepeatIsIgnored | apps/server/src/db.ts:284-291 | sending a batch with an id again, at any later time, changes nothing |
| Ingest.KeyExactly | apps/server/src/db.ts:284-291 | a batch is known by its id without the blanks around it; one without an id has the empty key |
| Ingest.OwnKey | apps/server/src/db.ts:284-291 | an id without blanks around it is its own key, so two such batches count as one only if their ids are equal |
| Ingest.LastWins | apps/server/src/db.ts:245-282 | each table shows the last reading for its key; unknown devices and stations stay unknown |
| Ingest.Server.IngestTelemetry | apps/server/src/db.ts:245-282 | the loop stores every reading and touches its device and station |
| Ingest.Server.IngestTelemetryBatch | apps/server/src/db.ts:284-300 | a known id is reported as a duplicate, anything else is stored and its id remembered |
| Efuse.CountBitNum | src/bootloader/commonboot/src/secure_verify_boot.c:148-158 | the loop that clears the lowest bit returns the number of bits set |
| Efuse.CountMonotone | src/bootloader/commonboot/src/secure_verify_boot.c:148-158 | more bits have a larger count, and the count stays only if the bits do |
| Efuse.WriteBitsResult | src/bootloader/commonboot/src/boot_efuse_opt.c:83-106 | the fuses are the old ones or the value's bits up to the first obstacle, and success is reported exactly when every fuse to be blown exists, is whole and does not fail |
| Efuse.WriteBitsExactly | src/bootloader/commonboot/src/boot_efuse_opt.c:83-106 | the whole value gets into the fuses if and only if everything from the first obstacle on was there before |
| Efuse.SecondBurnStops | src/drivers/drivers/driver/efuse/efuse.c:94-124 | blowing a fuse twice is refused and stops the rest of the value |
| Efuse.BurnsInTurn | src/bootloader/commonboot/src/boot_efuse_opt.c:108-134 | attempts take effect one after the other, each on the fuses left by those before |
| Efuse.KeyBitExactly | src/bootloader/commonboot/src/boot_efuse_opt.c:92-96 | bit j of a value is bit j mod 8, from the lowest, of its octet j / 8 |
| Efuse.FileExactly | src/bootloader/commonboot/src/boot_efuse_opt.c:66-80 | a file is burned if and only if its hash is right and it announces at most 19 items |
| Efuse.ItemExactly | src/bootloader/commonboot/src/boot_efuse_opt.c:117-132 | where an item has its start, its width and its value, and where the next one stands |
| Efuse.OneItemFile | src/bootloader/commonboot/src/boot_efuse_opt.c:108-134 | a file with one item whose fuses are whole and sound adds exactly the bits of its value |
| Efuse.AntiRollback | src/bootloader/commonboot/src/secure_verify_boot.c:160-191 | no run of burns, successful or not, makes an image version acceptable again |
| Efuse.VersionExactly | src/bootloader/commonboot/src/secure_verify_boot.c:172-177 | bit k of the version read is fuse k of the item of the image type: 0 to 7, 656 to 663, 664 to 671, or 624 to 655 |
| Efuse.RollForward | src/bootloader/commonboot/src/secure_verify_boot.c:160-191 | blowing a whole fuse of the item under a mask bit shuts out every version that was just new enough |
| Efuse.CheckVersion | src/bootloader/commonboot/src/secure_verify_boot.c:160-191 | table search and comparison decide acceptance; a type that is not in the table is checked against item 0 |
| Efuse.FuseBlock.WriteBit | src/drivers/drivers/driver/efuse/efuse.c:94-124 | one fuse is blown, if it exists and is still whole |
| Efuse.FuseBlock.EfuseWriteBits | src/bootloader/commonboot/src/boot_efuse_opt.c:83-106 | the bit loop writes the value up to the first obstacle |
| Efuse.FuseBlock.EfuseBurn | src/bootloader/commonboot/src/boot_efuse_opt.c:108-134 | the walk over the items burns each, and a failed one does not stop the others |

## Left out

- The serial driver, delays and the watchdog: a timeout is silence on the modelled line, with nothing in flight.
- Noise on an idle line, damage that makes an octet of the receiver into an ACK, and damage whose remains would pass
  for a packet or for EOT: not among the line's faults.
- YMODEM packets of 2048, 4096 and 8192 octets are parsed by the receiver model, but the sender never makes them.
- Builds: the receiver is modelled with the packet buffer of 8192 octets that
  src/build/config/target_config/ws63/menuconfig/acore/ws63_loaderboot.config:42-44 sets, and, outside `WideWindow`,
  with the loader's window of 1024 octets of builds without large packets. What that file's window of 8192 octets
  changes is in `WideWindow`; the other YMODEM theorems are not restated for it.
- SerialLoad.Loader.LoaderSerialYmodem: requires that flash has room for `max` octets behind the store address,
  which the source leaves to its caller; the flash controller itself is an array.
- UartReceive.UartContext.ReadFrame: requires that the header found announces at least 10 octets; below that the
  source's size subtractions wrap and it would write beyond its packet.
- UartReceive.UartContext.FrameDataRx: requires the same of its header, for the same reason.
- The cut-off of the auth receiver's two timeouts: the model keeps which error results, not how long it waits.
- Commands of the boot loader (image download, erase, upload, baud rate): thin wrappers around what is modelled.
- Lines, polylines, rectangles, text and regions on the display: the line loop tests variables it does not change
  and does not end for distinct points; the others only combine pixels.
- Arguments of the packing tool (`|`-separated fields, hexadecimal numbers, files that do not exist): an item comes
  with its fields and its contents.
- PacketTool.Lists.ParseAllinone: a name with an octet above 0x7F is refused; decoding other UTF-8 names is not
  modelled. What is left of a file when packing fails half-way is not modelled either.
- Rows of the command and task tables: the columns that are only stored (device, action, speed, payload, steps, user).
- Ties of `ORDER BY created_at`: rows with the same time come in the order of the table.
- Conversion of telemetry into readings, and of cell values into text: readings and texts are given. Trimming of
  batch ids knows blank, tab, line feed and carriage return.
- Efuse.FuseBlock.EfuseWriteBits: requires start and width to add up to at most 65535; beyond that the source's 16-bit
  counter never reaches the end.
- Efuse.FuseBlock.EfuseBurn: requires the same of every item it burns, for the same reason.
- Hash and signature checks: whether a configuration file verifies is a parameter. A fuse that cannot be read is not
  modelled, and memory behind a configuration file reads as zero.
- HTTP routing, sessions, roles, risk scores, dashboards and the SQL engine: plumbing around the modelled statements.
