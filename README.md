# Ymodem-IAP: a Dafny model of the A/B-bank bootloader and its tools

Ymodem-IAP updates the firmware of an STM32F103 (64 KB of flash) over a
serial line. The model covers each part of that path:

- **Packing.** `tools/firmware_packer.py` prefixes an application image with
  a 24-byte firmware header: the magic word, the version, the size, the
  CRC-32 and a build time.
- **Sending.** `tools/firmware_update.py` sends the packed file with YMODEM.
  It waits for the device's `C`, then sends a 128-byte file-information
  frame. Data blocks of 1024 or 128 bytes follow, each tried three times,
  and the transfer ends with EOT, NAK, EOT, ACK.
- **Receiving.** The device collects bytes in a ring queue. When the line
  goes quiet, a timer interrupt drains the queue into a buffer and runs the
  receive state machine on it. The state machine writes each block to
  flash at an advancing address. Two receivers exist:
  - `Boot/Protocol/YModem/ymodem.c` parses the file size, clamps the last
    block to it, and reports success to the upgrade;
  - the older `Boot/HARDWARE/YModem/ymodem.c` writes whole blocks to a
    fixed 52 KB area.
- **Installing.** The bootloader keeps a 60-byte configuration record. The
  record holds the active bank, a boot counter and one firmware header per
  bank, and is protected by a magic word and a CRC-32.
  - An upgrade receives the image into the inactive bank and parses and
    checks its header. If the header is accepted, the upgrade records it,
    switches banks and jumps.
  - At start-up the bootloader counts boots. After more than
    `max_boot_retry` boots it falls back to the other bank. It starts a
    bank only when the bank passes verification (header, size, CRC-32 and
    a plausible stack pointer).

**Modelling approach.**

- **Pure code** (frame layouts, header codecs, the version parse, CRCs) is
  modelled as functions with lemmas.
- **Stateful code** is modelled as classes whose fields are the source's
  state:
  - the sender object (port, cancel flag, replies still to come, bytes
    written);
  - the receive queue and buffer;
  - each receiver's globals;
  - the device's flash and `g_config`.
- **Each method is tied to a pure specification function** over that state.
  Its `ensures` says `(result, State()) == Spec(old(State()), ...)`.
- **The properties are proved about those functions:**
  - round trips;
  - acknowledgement scenarios;
  - the receiver's transition table and its invariants;
  - the end-to-end results. A cooperative session writes exactly the
    file's bytes into the target bank, and a packed file is installed
    exactly when its size is within 1 to 20480 bytes.

**Environment, as parameters.**

- Serial input is a list of scripted replies. A reply is a byte, a timeout
  (`Silence`), or the user pressing cancel while a read is blocked
  (`CancelNow`).
- Wall-clock timeouts are numbers of polls.
- Whether the flash erase succeeds is a boolean of the device.
- The file system is an `Option` of the file's bytes.

Modules, one per file:

| module | models |
|---|---|
| `Bytes`, `Crc` | little-endian words, ASCII decimals, CRC-16/XMODEM and CRC-32 |
| `IapLayout` | the flash map, `firmware_info_t` and `system_config_t` |
| `FirmwarePacker` | the packer |
| `YmodemFrames`, `YmodemSender`, `YmodemSenderProperties` | the sender's frames, the class `Sender`, and properties |
| `RxQueue` | the receive queue and the download buffer |
| `YmodemReceiver`, `YmodemReceiverProperties` | the receiver in Boot/Protocol |
| `LegacyReceiver` | the receiver in Boot/HARDWARE |
| `FlashMemory` | byte-level flash reads, programs and erases |
| `FirmwareVerify` | `firmware_verify.c` |
| `ConfigManager` | `config_manager.c` with the class `Device` |
| `Bootloader` | `bootloader.c` |
| `EndToEnd` | theorems connecting sender, receiver, flash, packer and upgrade |

## Model

| member | source | states |
|---|---|---|
| Bytes.ReadLE32OfLE32 | tools/firmware_packer.py:92-107 | A 32-bit field packed little-endian (`struct.pack('<I')`) reads back as the same value. |
| Bytes.LE32OfReadLE32 | tools/firmware_packer.py:151-158 | Any four bytes unpacked as `'<I'` and packed again are the same four bytes. |
| Bytes.DigitsValueOfDecimal | tools/firmware_update.py:140-143 | The decimal text `str(file_size)` written into the header has the value `file_size`. |
| Crc.CalculateCrc | tools/firmware_update.py:61-72 | The loop over the data with a 16-bit register returns the CRC-16/XMODEM of the data (polynomial 0x1021, initial value 0), below 0x10000. |
| Crc.Crc16OfPayloadAndCrc | tools/firmware_update.py:231-233 | A payload followed by its CRC (high byte, then low byte) has CRC 0, which is the check a receiver makes on a frame. |
| Crc.Crc16CheckValue | tools/firmware_update.py:61-72 | The CRC-16 over the ASCII digits "123456789" is 0x31C3, the catalogued check value of CRC-16/XMODEM. |
| Crc.Crc32CheckValue | tools/firmware_packer.py:29-31 | The CRC-32 over the ASCII digits "123456789" is 0xCBF43926, the catalogued check value of the IEEE CRC-32 that `binascii.crc32` computes. |
| IapLayout.PartitionsTile | Boot/IAP/Config/iap_config.h:9-37 | Five areas lie end to end from the start of the 64 KB flash: boot, configuration, bank A, bank B and log. Each bank is 20 sectors of 1024 bytes. The configuration area is 2 sectors. |
| IapLayout.StatusCodes | Boot/IAP/Config/iap_config.h:63-68 | The upgrade status codes are 0 to 5: idle, downloading, verifying, installing, success, failed. |
| IapLayout.EncodeInfo | Boot/IAP/Config/iap_config.h:42-53 | The packed `firmware_info_t` is 24 bytes. |
| IapLayout.DecodeEncodeInfo | Boot/IAP/Config/iap_config.h:42-53 | Reading an encoded `firmware_info_t` gives back every field. |
| IapLayout.EncodeDecodeInfo | Boot/IAP/Config/iap_config.h:42-53 | Any 24 bytes read as a `firmware_info_t` and written back are the same bytes. |
| IapLayout.EncodeConfig | Boot/IAP/Config/iap_config.h:71-80 | The packed `system_config_t` is 60 bytes. Its first 56 bytes are the fields that `config_crc32` covers. |
| IapLayout.DecodeEncodeConfig | Boot/IAP/Config/iap_config.h:71-80 | Reading an encoded `system_config_t` gives back every field. |
| IapLayout.EncodeDecodeConfig | Boot/IAP/Config/iap_config.h:71-80 | Any 60 bytes read as a `system_config_t` and written back are the same bytes. |
| FirmwarePacker.Split | tools/firmware_packer.py:70 | `version.split('.')` yields at least one part, and no part contains a dot. |
| FirmwarePacker.JoinSplit | tools/firmware_packer.py:70 | Joining the parts of `split('.')` with dots gives back the version string. |
| FirmwarePacker.SplitJoin | tools/firmware_packer.py:70 | Splitting dot-free parts joined with dots gives back the parts. |
| FirmwarePacker.ParseInt | tools/firmware_packer.py:71-73 | `int()` accepts exactly a non-empty run of ASCII digits, optionally after one `+` or `-`, and rejects everything else, the empty string included; the value is the digits' decimal value, negated after `-`, and never negative without `-`. |
| FirmwarePacker.ParseIntOfDecimal | tools/firmware_packer.py:71-73 | `int()` of the decimal text of n is n. |
| FirmwarePacker.ParseVersionOfParts | tools/firmware_packer.py:69-77 | The parse succeeds exactly when `int()` accepts the first part and, when present, the second and third. A missing minor or patch part is 0. Later parts are ignored. |
| FirmwarePacker.ParseVersionOnePart | tools/firmware_packer.py:71-73 | A version "a" parses as a.0.0. |
| FirmwarePacker.ParseVersionTwoParts | tools/firmware_packer.py:71-73 | A version "a.b" parses as a.b.0. |
| FirmwarePacker.ParseVersionExtraPart | tools/firmware_packer.py:70-73 | A fourth part, whatever it holds, is ignored: "a.b.c.x" parses as a.b.c. |
| FirmwarePacker.EmptyPartFails | tools/firmware_packer.py:69-77 | An empty part among the first three (as in "1..2" or "1.") makes `int()` fail, so packing stops. |
| FirmwarePacker.PackHeader | tools/firmware_packer.py:90-112 | The built header is always 24 bytes, so the length check at line 110 never fails. |
| FirmwarePacker.PackHeaderIsFirmwareInfo | tools/firmware_packer.py:92-107 | The packed header is the `firmware_info_t` encoding with magic 0x5AA5F00F, the three version bytes, reserved 0, the size, the CRC-32, the timestamp and valid flag 0xAA. Decoded, it gives those fields back. |
| FirmwarePacker.PackFirmware | tools/firmware_packer.py:33-130 | A pack succeeds only when the input file exists and the version parses with every part in 0..255. The size and the timestamp must also fit the 32-bit fields. |
| FirmwarePacker.PackFirmwareLayout | tools/firmware_packer.py:42-118 | A pack succeeds exactly when all of these hold: the file exists; a file over 24 KB is confirmed; the version parses with parts in 0..255; the size and time fit in 32 bits. The output is the header of those fields followed by the unchanged image. |
| FirmwarePacker.UnpackFirmware | tools/firmware_packer.py:132-165 | Inspection succeeds exactly when the file exists, holds at least 24 bytes and starts with the magic word. |
| FirmwarePacker.UnpackOfPack | tools/firmware_packer.py:132-176 | Inspecting a packed file gives back the version, size, CRC-32 and timestamp that were packed, and reports the header valid. |
| YmodemFrames.AsciiBytes | tools/firmware_update.py:127 | `encode('ascii', 'ignore')` keeps only bytes below 0x80 and never makes the name longer. |
| YmodemFrames.FileInfoFrame | tools/firmware_update.py:114-154 | A file-information frame exists exactly when the name and the size digits together take at most 128 bytes; longer ones raise IndexError. The frame is 133 bytes. |
| YmodemFrames.BuildFileInfoFrame | tools/firmware_update.py:119-154 | Filling the 133-byte array index by index builds exactly `FileInfoFrame`. |
| YmodemFrames.FileInfoFrameFields | tools/firmware_update.py:119-154 | The frame starts SOH 0x00 0xFF, then holds the name, a 0, the size digits and a 0. Zeros fill up to byte 131, and the CRC checks over bytes 3 to 132. |
| YmodemFrames.FileInfoFrameLosesTerminator | tools/firmware_update.py:137-154 | With 127 or 128 bytes of name and digits, the fields run into the CRC slots and are overwritten. The payload is then the first 128 field bytes, and the trailing 0 is lost. |
| YmodemFrames.DataPayload | tools/firmware_update.py:203-228 | The payload is 1024 bytes for a 1024-byte chunk and 128 bytes otherwise. |
| YmodemFrames.BuildDataFrame | tools/firmware_update.py:203-233 | Building the packet in an array gives `DataFrame(n, data)`. |
| YmodemFrames.DataFrameHeader | tools/firmware_update.py:210-225 | A data frame is 1029 bytes starting with STX for a 1024-byte chunk, and 133 bytes starting with SOH otherwise. Byte 1 is n mod 256, and bytes 1 and 2 add up to 0xFF. |
| YmodemFrames.DataFrameCarriesData | tools/firmware_update.py:219-228 | The frame carries the chunk from byte 3, padded with 0x1A up to 128 bytes. A chunk between 129 and 1023 bytes is cut to its first 128 bytes. |
| YmodemFrames.DataFrameCrcChecks | tools/firmware_update.py:231-233 | The CRC over everything after the three header bytes of a data frame is 0. |
| YmodemSender.Write | tools/firmware_update.py:43-51 | A write appends the bytes to the line only when the port is open and the transfer is not cancelled. Nothing else about the link changes. |
| YmodemSender.Chunk | tools/firmware_update.py:322-330 | The next chunk is the next 1024 bytes of the file when 1024 remain, and otherwise the next 128 bytes or fewer. It is never empty. |
| YmodemSender.Sender.SendByte | tools/firmware_update.py:43-46 | Writes one byte to the link. |
| YmodemSender.Sender.SendData | tools/firmware_update.py:48-51 | Writes the data to the link. |
| YmodemSender.Sender.ReceiveByte | tools/firmware_update.py:53-59 | Takes the next scripted reply as `receive_byte` would. |
| YmodemSender.Sender.CancelTransfer | tools/firmware_update.py:426-431 | Sets the cancel flag. Nothing is written, because the flag is set before the two CA bytes. |
| YmodemSender.Sender.WaitForSync | tools/firmware_update.py:74-112 | Follows `Sync`: a `C`, plus an optional second one, within the polls. |
| YmodemSender.Sender.SendFileHeader | tools/firmware_update.py:114-196 | Follows `SendHeader` on the file-information frame. |
| YmodemSender.Sender.SendDataPacket | tools/firmware_update.py:198-261 | Follows `SendPacket` on the data frame. |
| YmodemSender.Sender.ResetTransferState | tools/firmware_update.py:263-274 | Clears the cancel flag and leaves the rest of the link as it was. |
| YmodemSender.Sender.SendFile | tools/firmware_update.py:276-424 | Follows `Transfer`: reset, then missing file or sync, header, data blocks and end of transfer. |
| YmodemSender.Sender.Open | tools/firmware_update.py:299-310 | Follows `Opening`: sync, then the header, each checked for cancellation. |
| YmodemSender.Sender.SendBlocks | tools/firmware_update.py:316-360 | Follows `Blocks` over the frames of `Chunks(content, 0)` numbered from 1. |
| YmodemSender.Sender.SendBlock | tools/firmware_update.py:346-356 | Follows `SendWithRetries`: up to three sends of one packet. |
| YmodemSender.Sender.EndTransfer | tools/firmware_update.py:362-419 | Follows `Finish`: EOT, wait for NAK, EOT, wait for ACK. |
| YmodemSenderProperties.CancelWritesNothing | tools/firmware_update.py:426-431 | Cancelling only sets the flag. |
| YmodemSenderProperties.WriteExtends | tools/firmware_update.py:43-51 | A write only appends to the line, and a cancelled link stays unchanged. |
| YmodemSenderProperties.ReceiveExtends | tools/firmware_update.py:53-59 | A read only consumes replies. A read that returns a byte was not cancelled. |
| YmodemSenderProperties.SyncExtends | tools/firmware_update.py:74-112 | Synchronisation only appends to the line and consumes replies. |
| YmodemSenderProperties.HeaderAcksExtends | tools/firmware_update.py:165-192 | The header's acknowledgement wait only consumes replies. |
| YmodemSenderProperties.PacketAcksExtends | tools/firmware_update.py:239-261 | A packet's acknowledgement wait only consumes replies. |
| YmodemSenderProperties.SendPacketExtends | tools/firmware_update.py:198-261 | Sending a packet extends the link. |
| YmodemSenderProperties.SendWithRetriesExtends | tools/firmware_update.py:346-356 | The three tries extend the link. |
| YmodemSenderProperties.DataLoopExtends | tools/firmware_update.py:316-360 | The data loop extends the link. |
| YmodemSenderProperties.AwaitNakExtends | tools/firmware_update.py:375-388 | The wait for NAK after the first EOT only consumes replies. |
| YmodemSenderProperties.AwaitAckExtends | tools/firmware_update.py:395-408 | The wait for ACK after the second EOT only consumes replies. |
| YmodemSenderProperties.FinishExtends | tools/firmware_update.py:362-419 | Ending the transfer extends the link. |
| YmodemSenderProperties.OpeningExtends | tools/firmware_update.py:299-310 | The opening extends the link. |
| YmodemSenderProperties.RunExtends | tools/firmware_update.py:299-419 | The whole transfer after the file check extends the link. |
| YmodemSenderProperties.TransferExtends | tools/firmware_update.py:276-424 | `send_file` never takes back bytes it wrote. |
| YmodemSenderProperties.ChunksCover | tools/firmware_update.py:316-335 | The chunks read, concatenated, are exactly the file from the current offset. |
| YmodemSenderProperties.ChunkSizes | tools/firmware_update.py:322-330 | Every chunk is 1024 bytes or at most 128. Every 128-byte or shorter chunk except the last is exactly 128. No 1024-byte chunk follows a shorter one. |
| YmodemSenderProperties.ShortTail | tools/firmware_update.py:322-330 | With fewer than 1024 bytes left, every remaining chunk is at most 128 bytes. |
| YmodemSenderProperties.PacketAnswered | tools/firmware_update.py:239-261 | Timeouts and other bytes use up tries. The first ACK or NAK within the three tries decides the packet: ACK is true, NAK is false. |
| YmodemSenderProperties.PacketTimesOut | tools/firmware_update.py:239-261 | Three replies that are neither ACK nor NAK fail the packet. |
| YmodemSenderProperties.RefusedBlockSentThrice | tools/firmware_update.py:346-358 | Three NAKs send the same frame three times and fail the block. |
| YmodemSenderProperties.AckedBlock | tools/firmware_update.py:346-350 | An ACK at once sends the frame once and succeeds. |
| YmodemSenderProperties.DataLoopAllAcked | tools/firmware_update.py:316-360 | When every frame is ACKed, the loop writes exactly the frames, in order. |
| YmodemSenderProperties.SyncOnFirstC | tools/firmware_update.py:82-99 | Synchronisation succeeds at the first `C` within the polls, and reads one more reply for the second `C`. |
| YmodemSenderProperties.SyncTimesOut | tools/firmware_update.py:82-112 | Without a `C` or a cancel within the polls, synchronisation fails. |
| YmodemSenderProperties.HeaderAcked | tools/firmware_update.py:165-192 | After silences, an ACK followed by a byte accepts the header exactly when that byte is `C`. |
| YmodemSenderProperties.HeaderRefused | tools/firmware_update.py:165-192 | After silences, a byte other than ACK refuses the header. |
| YmodemSenderProperties.HeaderTimesOut | tools/firmware_update.py:165-192 | Five silences refuse the header. |
| YmodemSenderProperties.QuietReceive | tools/firmware_update.py:53-59 | A read without a cancel writes nothing and keeps the link uncancelled. |
| YmodemSenderProperties.AwaitNakQuiet | tools/firmware_update.py:375-388 | Without a cancel, the NAK wait writes nothing and uses at most 5 replies. |
| YmodemSenderProperties.AwaitAckQuiet | tools/firmware_update.py:395-408 | Without a cancel, the ACK wait writes nothing and uses at most 10 replies. |
| YmodemSenderProperties.FinishWritesTwoEots | tools/firmware_update.py:362-419 | Without a cancel, the end of the transfer writes two EOTs and reports success, whether or not the final ACK came. |
| YmodemSenderProperties.OpeningAccepted | tools/firmware_update.py:299-310 | The replies C, C, ACK, C open the transfer with exactly the header written. |
| YmodemSenderProperties.AlwaysNakRun | tools/firmware_update.py:299-358 | A device that NAKs block 1 three times fails the transfer at packet 1, after the header and three copies of block 1. |
| YmodemSenderProperties.AlwaysNakDevice | tools/firmware_update.py:276-358 | The same, for `send_file` on an existing file. |
| YmodemSenderProperties.CooperativeRun | tools/firmware_update.py:299-419 | A device that ACKs everything gets exactly the header, the frames and two EOTs, and the transfer succeeds. |
| YmodemSenderProperties.FinishAnswered | tools/firmware_update.py:362-419 | The replies NAK then ACK end the transfer with two EOTs and success. |
| YmodemSenderProperties.CooperativeDevice | tools/firmware_update.py:276-419 | For an existing file, a cooperative device receives the file-information frame, then the data frames numbered from 1 over chunks that concatenate to the file, then two EOTs. |
| RxQueue.RingPush | Boot/Protocol/YModem/ymodem.c:48-51 | Writing at `rear` and counting one more appends the byte to the queue's contents. |
| RxQueue.RingPop | Boot/Protocol/YModem/ymodem.c:65-67 | Advancing `front` and counting one less removes the first byte. |
| RxQueue.FullIffAtCapacity | Boot/Protocol/YModem/ymodem.c:41 | The full test `count > 0 && rear == front` holds exactly when the queue holds 1200 bytes. |
| RxQueue.Queue.Initiate | Boot/Protocol/YModem/ymodem.c:22-27 | The queue is empty afterwards. |
| RxQueue.Queue.NotEmpty | Boot/Protocol/YModem/ymodem.c:30-36 | Returns 1 exactly when the queue holds a byte, and 0 otherwise. |
| RxQueue.Queue.Append | Boot/Protocol/YModem/ymodem.c:39-54 | A full queue returns 0 and is unchanged. Otherwise the call returns 1 and the byte is appended. |
| RxQueue.Queue.Delete | Boot/Protocol/YModem/ymodem.c:57-70 | An empty queue returns 0 and nothing changes. Otherwise the call returns 1, the first byte is removed and stored at the destination index, and nothing else in the destination changes. |
| RxQueue.Drain | Boot/Protocol/YModem/ymodem.c:295-305 | The do-while moves the whole queue, in order, into the buffer from index 0 and sets `len` to its length. The rest of the buffer keeps its old bytes, and the queue is left empty. |
| YmodemReceiver.NameEnd | Boot/Protocol/YModem/ymodem.c:117-122 | The name scan stops between byte 3 and index 131. |
| YmodemReceiver.EraseSectors | Boot/Protocol/YModem/ymodem.c:133-146 | Bank A, bank B and the default all erase 20 sectors. |
| YmodemReceiver.Receiver.constructor | Boot/Protocol/YModem/ymodem.c:11-19 | The globals start in state 0 at address 0, with the target at bank A and no success. |
| YmodemReceiver.Receiver.SendByte | Boot/Protocol/YModem/ymodem.c:72-96 | Sends one byte on the UART. |
| YmodemReceiver.Receiver.ParseFileSize | Boot/Protocol/YModem/ymodem.c:115-131 | The two pointer loops compute `FileSize` of the buffer. |
| YmodemReceiver.Receiver.FirstBlockIn | Boot/Protocol/YModem/ymodem.c:109-151 | State 0 on SOH: takes the target address, resets the counters, parses the size, erases 20 sectors, sends ACK and C, and moves to state 1. |
| YmodemReceiver.Receiver.DataBlockIn | Boot/Protocol/YModem/ymodem.c:155-179 | State 1 on SOH or STX: writes the block clamped to the bytes still due, advances the address and count, and sends ACK. |
| YmodemReceiver.Receiver.Recv | Boot/Protocol/YModem/ymodem.c:99-220 | Follows `Step` on the buffer's bytes and length, then empties the buffer. |
| YmodemReceiver.Receiver.ResetReceiver | Boot/Protocol/YModem/ymodem.c:232-238 | Clears the state, the success flag and the byte count, and empties the queue. |
| YmodemReceiver.Receiver.Init | Boot/Protocol/YModem/ymodem.c:223-229 | Empties the queue and returns to state 0. |
| YmodemReceiver.Receiver.OnQuiet | Boot/Protocol/YModem/ymodem.c:286-311 | With bytes queued, runs `Step` on the drained burst and empties the queue. With none queued, nothing changes. |
| YmodemReceiverProperties.StepFollowsTable | Boot/Protocol/YModem/ymodem.c:99-220 | An empty buffer is ignored. Otherwise only the first byte decides the next state and the bytes sent, as listed in `Table`, and the state stays within 0..3. |
| YmodemReceiverProperties.SuccessFlag | Boot/Protocol/YModem/ymodem.c:180-199 | `g_ymodem_success` changes in two cases only. It becomes 1 on the second EOT in state 2. It becomes 0 on a byte other than SOH, STX or EOT in state 1. |
| YmodemReceiverProperties.InitialConsistent | Boot/Protocol/YModem/ymodem.c:11-19 | The initial globals satisfy the receiver invariant: the state is at most 3 and the byte count is at most the file size. |
| YmodemReceiverProperties.DataBlockClamped | Boot/Protocol/YModem/ymodem.c:155-174 | A data block writes `min(block, size - count)` bytes from buffer byte 3, or nothing when that is 0. The count stays at most the file size. |
| YmodemReceiverProperties.StepKeepsConsistent | Boot/Protocol/YModem/ymodem.c:99-220 | Every burst keeps the invariant and the target address. |
| YmodemReceiverProperties.ResetKeepsConsistent | Boot/Protocol/YModem/ymodem.c:232-238 | A reset keeps the invariant, returning to state 0 with a zero count. |
| YmodemReceiverProperties.ParseDigitsValue | Boot/Protocol/YModem/ymodem.c:126-131 | The digit loop computes the decimal value of the digit run, modulo 2^32. |
| YmodemReceiverProperties.FileSizeIsDecimal | Boot/Protocol/YModem/ymodem.c:115-131 | The parsed size is the value of the digits just after the name's terminator, modulo 2^32. |
| YmodemReceiverProperties.FileSizeOfFields | Boot/Protocol/YModem/ymodem.c:115-131 | The size is recovered for a header holding, from byte 3, a name without 0 bytes, a 0 and the decimal digits of n, followed by a non-digit. The size is n mod 2^32. |
| YmodemReceiverProperties.IgnoresBlockNumber | Boot/Protocol/YModem/ymodem.c:99-220 | Bytes 1 and 2 (the block number and its complement) are never read. |
| YmodemReceiverProperties.IgnoresCrc | Boot/Protocol/YModem/ymodem.c:153-214 | After the first frame, the CRC bytes and anything past the block are never read. |
| LegacyReceiver.LegacyReceiverState.SendByte | Boot/HARDWARE/YModem/ymodem.c:65-89 | Sends one byte on the UART. |
| LegacyReceiver.LegacyReceiverState.Recv | Boot/HARDWARE/YModem/ymodem.c:92-168 | Follows `LegacyStep` on the buffer, then empties the buffer. |
| LegacyReceiver.LegacyReceiverState.Init | Boot/HARDWARE/YModem/ymodem.c:171-177 | Empties the queue and returns to state 0. |
| LegacyReceiver.LegacyReceiverState.OnQuiet | Boot/HARDWARE/YModem/ymodem.c:224-250 | Runs `LegacyStep` on the drained burst. An empty queue changes nothing. |
| LegacyReceiver.LegacyFollowsTable | Boot/HARDWARE/YModem/ymodem.c:92-168 | An empty buffer is ignored. Otherwise the first byte decides the next state and the bytes sent, as listed in `LegacyTable`. |
| LegacyReceiver.LegacyFirstBlock | Boot/HARDWARE/YModem/ymodem.c:100-110 | The first SOH erases the 52 sectors from 0x08003000, which reach exactly the end of flash, and moves to state 1. |
| LegacyReceiver.LegacyWritesWholeBlocks | Boot/HARDWARE/YModem/ymodem.c:113-126 | Every data block writes all 128 or 1024 bytes, whatever the file size, and advances the address by as much. |
| LegacyReceiver.LegacyIgnoresBlockNumber | Boot/HARDWARE/YModem/ymodem.c:92-168 | The block number bytes are never read. |
| FlashMemory.Read | Boot/IAP/Bootloader/bootloader.c:110-113 | Reading n bytes gives n bytes. |
| FlashMemory.Program | Boot/IAP/Bootloader/bootloader.c:88-108 | After programming, the range reads back as the bytes written. |
| FlashMemory.ProgramElsewhere | Boot/IAP/Bootloader/bootloader.c:88-108 | Programming leaves every disjoint range as it was. |
| FlashMemory.ReadPart | Boot/IAP/Bootloader/bootloader.c:110-113 | Reading part of a range gives that slice of the range. |
| FlashMemory.ProgramAdjacent | Boot/IAP/Bootloader/bootloader.c:88-108 | Two programs back to back equal one program of the concatenation. This is how the receiver's advancing address adds up. |
| FirmwareVerify.BankAddr | Boot/IAP/Verify/firmware_verify.c:25-31 | A bank number selects bank A or bank B. |
| FirmwareVerify.VerifyAnyOtherBankIsB | Boot/IAP/Verify/firmware_verify.c:25-31 | Verifying any nonzero bank number verifies bank B. |
| FirmwareVerify.VerifyReadsOnly | Boot/IAP/Verify/firmware_verify.c:12-67 | Verification depends only on the configuration area and the bank's image bytes. |
| FirmwareVerify.ParseHeaderOfEncoded | Boot/IAP/Verify/firmware_verify.c:75-92 | Parsing a stored header gives its fields. It is accepted exactly when the magic matches and the size is between 1 and 20480. |
| FirmwareVerify.CompareVersionOrders | Boot/IAP/Verify/firmware_verify.c:100-115 | The comparison is the sign of the difference of the versions read as major, minor, patch digits in base 256. It is 0 exactly for equal versions, and swapping the arguments negates it. |
| ConfigManager.Not | Boot/IAP/Config/config_manager.c:188 | `!bank` is 1 for bank 0 and 0 for any other bank. |
| ConfigManager.Stamped | Boot/IAP/Config/config_manager.c:44-46 | Stamping the CRC changes no other field. |
| ConfigManager.ReadAfterSave | Boot/IAP/Config/config_manager.c:16-60 | After a successful save, `config_read` returns the stamped record, and accepts it exactly when it carries the configuration magic. |
| ConfigManager.SaveKeepsOtherAreas | Boot/IAP/Config/config_manager.c:40-60 | A save, successful or not, touches nothing outside the configuration area. |
| ConfigManager.DefaultFields | Boot/IAP/Config/config_manager.c:67-97 | The defaults are: configuration magic, bank B active, idle, count 0, three retries. Both banks carry the firmware magic, with size 0, CRC 0 and not valid. |
| ConfigManager.MarkValidStores | Boot/IAP/Config/config_manager.c:109-133 | With a working erase, the stored record afterwards is valid. The chosen bank holds the header with the valid flag. The other bank and the active bank are as in the previous valid record, or in the defaults when there was none. |
| ConfigManager.MarkValidNeedsErase | Boot/IAP/Config/config_manager.c:109-133 | When the erase fails, marking returns 0 and the flash is unchanged. |
| ConfigManager.InitSystemConfigOutcome | Boot/IAP/Config/config_manager.c:141-163 | A valid stored record is adopted without writing. An invalid one is replaced by the stamped defaults when the erase works, and the result is 0 when it does not. |
| ConfigManager.NoFirmwareNoCount | Boot/IAP/Config/config_manager.c:172-179 | With no valid firmware in either bank, the result is 0 and nothing changes. |
| ConfigManager.FourthBootSwitches | Boot/IAP/Config/config_manager.c:181-195 | With three retries, boots 1 to 3 count up on the same bank. The fourth switches banks and resets the count. |
| ConfigManager.CounterWrapsAtMaximum | Boot/IAP/Config/config_manager.c:182-185 | With `max_boot_retry` at 255, the 8-bit count wraps to 0 and the bank never changes. |
| ConfigManager.CounterBounded | Boot/IAP/Config/config_manager.c:182-195 | A count within the limit stays within it. The bank changes exactly when the count reaches the limit and the limit is below 255. |
| ConfigManager.BootCountSaved | Boot/IAP/Config/config_manager.c:172-203 | With valid firmware and a working erase, the new `g_config` is what is stored. It is valid when the old one carried the magic, and both banks' bytes are untouched. |
| ConfigManager.Device.ConfigReadFrom | Boot/IAP/Config/config_manager.c:16-33 | Returns the validity and the record read from the configuration area. |
| ConfigManager.Device.ConfigSave | Boot/IAP/Config/config_manager.c:40-60 | Stamps the record and saves it, and returns 0 when the erase fails. |
| ConfigManager.Device.ConfigInitDefault | Boot/IAP/Config/config_manager.c:67-101 | Saves the defaults and returns them stamped. |
| ConfigManager.Device.MarkFirmwareValid | Boot/IAP/Config/config_manager.c:109-133 | Follows `MarkValid` on the flash, and leaves `g_config` alone. |
| ConfigManager.Device.InitSystemConfigNow | Boot/IAP/Config/config_manager.c:141-163 | Follows `InitSystemConfig` on the flash and `g_config`. |
| ConfigManager.Device.HasValidFirmwareNow | Boot/IAP/Config/config_manager.c:210-217 | True exactly when the active bank or the other bank verifies. |
| ConfigManager.Device.HandleBootCounterNow | Boot/IAP/Config/config_manager.c:172-203 | Follows `HandleBootCounter` on the flash and `g_config`. |
| Bootloader.JumpAddress | Boot/IAP/Bootloader/bootloader.c:127-134 | The jump address is the bank's start plus 24, where verification reads the image. |
| Bootloader.LoadAppGuard | Boot/IAP/Bootloader/bootloader.c:26-71 | `iap_load_app` returns without jumping exactly when the stack-pointer word masked with 0x2FFF0000 is not 0x20000000. Otherwise the entry point is the next word. |
| Bootloader.VerifiedBankStarts | Boot/IAP/Bootloader/bootloader.c:122-139 | A bank that verifies always starts. The vector table is the bank's start plus 24, and the stack is the image's first word. |
| Bootloader.LaunchReadsOnly | Boot/IAP/Bootloader/bootloader.c:26-34 | The jump depends only on the 8 bytes at the jump address. |
| Bootloader.SaveKeepsLaunch | Boot/IAP/Bootloader/bootloader.c:268-273 | Saving the configuration does not change what a jump to a bank starts. |
| Bootloader.VerifyAfterSave | Boot/IAP/Verify/firmware_verify.c:12-67 | After a successful save of a record with the magic, a bank verifies exactly when that record's entry has the magic, the valid flag, a size in range and the CRC-32 of the bank's image, and the image's stack pointer is plausible. |
| Bootloader.TryBootPrefersActive | Boot/IAP/Bootloader/bootloader.c:253-260 | A verifying active bank is started, and nothing is written. |
| Bootloader.TryBootFallsBack | Boot/IAP/Bootloader/bootloader.c:263-274 | When only the other bank verifies, it is started and becomes active with count 0. The stored record follows when the erase works. |
| Bootloader.TryBootGivesUp | Boot/IAP/Bootloader/bootloader.c:276-277 | With neither bank verifying, the result is 0 and nothing changes. |
| Bootloader.ReceivedImage | Boot/IAP/Bootloader/bootloader.c:160-188 | When verification starts, the inactive bank holds the received image. |
| Bootloader.UpgradeFailureKeepsConfig | Boot/IAP/Bootloader/bootloader.c:190-213 | A rejected header or a CRC mismatch saves status failed and keeps the active bank, the count and both banks' entries. |
| Bootloader.UpgradeSuccessSwitches | Boot/IAP/Bootloader/bootloader.c:215-234 | An install makes the other bank active with count 0 and status success. Its entry is the received header marked valid, with the magic and a size of 1 to 20480. The other bank's entry is untouched. |
| Bootloader.InstalledVerifiesIffStarts | Boot/IAP/Bootloader/bootloader.c:215-241 | After an install with a working erase, the new bank verifies exactly when the final jump goes ahead. The upgrade itself never checks the stack pointer. |
| Bootloader.UpgradeAccepted | Boot/IAP/Bootloader/bootloader.c:190-234 | An accepted staged header whose CRC-32 matches the image is installed, and recorded valid. |
| Bootloader.PackedImageInstalls | Boot/IAP/Bootloader/bootloader.c:190-234 | A header with the magic, the firmware's size (1 to 20480) and its CRC-32, followed by the firmware, is installed, and the header is recorded valid. |
| Bootloader.LargestImageOverruns | Boot/IAP/Verify/firmware_verify.c:86-87 | A firmware of the largest accepted size, 20480 bytes, makes a 20504-byte image, which runs 24 bytes past bank A into bank B; after `Receive` into bank A the first 24 bytes of bank B are the image's last 24 in the model's flash. |
| Bootloader.TryBootFirmware | Boot/IAP/Bootloader/bootloader.c:250-278 | Follows `TryBoot` on the device. |
| Bootloader.UpgradeProcess | Boot/IAP/Bootloader/bootloader.c:153-242 | Follows `Upgrade` on the device, for the image the session delivered. |
| EndToEnd.Session | Boot/Protocol/YModem/ymodem.c:286-311 | Delivering frames one burst each keeps the download buffer at its size. |
| EndToEnd.SessionAppend | Boot/Protocol/YModem/ymodem.c:286-311 | A session over two runs of frames is the second run from where the first ended. |
| EndToEnd.DataFrameCarries | tools/firmware_update.py:203-233 | The frame of a chunk of 1024 bytes, or of at most 128 bytes, carries the chunk from byte 3 with the matching SOH or STX. |
| EndToEnd.FramesCarryChunks | tools/firmware_update.py:316-360 | Every data frame the sender builds carries its chunk. |
| EndToEnd.ReceiveBlock | Boot/Protocol/YModem/ymodem.c:155-179 | A frame carrying a chunk no longer than the bytes still due programs exactly that chunk, advances by it, and sends ACK. |
| EndToEnd.ReceiveBlocks | Boot/Protocol/YModem/ymodem.c:155-179 | A run of such frames covering the rest of the file programs every chunk in turn. |
| EndToEnd.ReceiveHeader | Boot/Protocol/YModem/ymodem.c:109-151 | The sender's file-information frame sets the size to the file size, erases 20 sectors at the target, sends ACK and C, and moves to state 1. |
| EndToEnd.ReceiveEots | Boot/Protocol/YModem/ymodem.c:180-200 | Two EOTs in state 1 send NAK, then ACK and C, set success and reach state 3. |
| EndToEnd.ReceiveFile | Boot/Protocol/YModem/ymodem.c:153-200 | The data frames followed by two EOTs program the file's chunks and end in success. |
| EndToEnd.SessionEnd | Boot/Protocol/YModem/ymodem.c:108-200 | After the header and the blocks, count and size both equal the file length. The flash sees one erase and the block programs, and the UART sees ACK, C and an ACK per block. |
| EndToEnd.SenderToReceiver | tools/firmware_update.py:276-419 | Everything the sender writes to a cooperative receiver in state 0 ends in state 3 with success. Size and count equal the file length, the flash sees one erase and the chunk programs, and the UART carries the expected answers. |
| EndToEnd.ApplyPrograms | Boot/IAP/Bootloader/bootloader.c:88-108 | Applying the block programs from an address writes the blocks' concatenation there. |
| EndToEnd.SessionLandsFile | Boot/Protocol/YModem/ymodem.c:99-220 | Applied to the flash, the session's writes put exactly the file's bytes at the target bank. |
| EndToEnd.PackedImageOutcome | Boot/IAP/Bootloader/bootloader.c:190-234 | A well-formed packed image is installed exactly when its firmware is 1 to 20480 bytes. Otherwise its header is rejected. |
| EndToEnd.PackedFileInstalls | tools/firmware_packer.py:33-130 | A packer output that fits the bank is installed exactly when the image is 1 to 20480 bytes. The active bank's entry is then the packed header's fields. |
| EndToEnd.LegacyWritesPadding | Boot/HARDWARE/YModem/ymodem.c:113-126 | The older receiver programs a short last chunk together with its 0x1A padding. |

## Left out

- **The GUI and the command line.** These are not modelled: the Tk window,
  its progress bar and log callbacks, `print` output, the packer's `info`
  command and its usage text.
- **Opening the serial port.** `open_serial` and `close_serial` are not
  modelled: the link is given open or closed.
- **The 24 KB question.** The packer's interactive prompt becomes a boolean
  parameter.
- **Timing.** The sleeps and timeouts of the sender are not modelled. A
  wall-clock timeout is a bounded number of reads, and a timed-out read is
  the `Silence` reply.
- **File I/O.** `os.path.exists`, `getsize`, `basename` and file reads are
  replaced by an optional byte sequence. The name is passed as a string.
- Crc.Crc32: It is the reflected IEEE CRC-32, which is what
  `binascii.crc32` computes; `Crc.Crc32CheckValue` proves its catalogued
  check value. The device's `crc32_calculate` body is not part
  of this model; only its header is, and the model assumes it computes the
  same function as the packer.
- **Hardware.** The hardware side of the jump is not modelled: LEDs,
  delays, `led_status_indicate`, the NVIC and SysTick shutdown, and the
  setting of MSP, VTOR and CONTROL. A jump is a `Launch` value. A jump that
  returns is `None`.
- **The USART and timer interrupts.** `USART_Config`, `timer_init` and the
  interrupt registers are left out.
- **The receive interrupt.** It becomes `Queue.Append`.
- **Bursts.** Each frame is assumed to arrive as one burst, that is, in one
  timer period.
- FlashMemory.Program: Halfword programming and failures of the flash
  driver are not modelled:
  - an odd length is written byte-exactly;
  - a program never fails;
  - `mcu_flash_write` therefore always succeeds.

  Only the erase may fail; it is the `eraseWorks` flag of the device.
- FlashMemory.Within: Reads and writes are required to stay inside the
  64 KB flash. A download that would run past the end of flash is not
  modelled.
- Bootloader.Upgrade: The busy-wait on `g_ymodem_success` is replaced by
  the received image as a parameter. `EndToEnd.SessionLandsFile` shows a
  cooperative session puts exactly that image in the bank. A session that
  never ends is not modelled.
- **Interrupted sessions.** An upgrade that is interrupted mid-session is
  not modelled.
- **The `type` global.** The global `type` of the newer receiver is not
  modelled, because nothing else reads it.
- **`enter_upgrade_wait_mode`.** This endless LED loop is not modelled.
- **`upgrade_log_t`.** The log area and `upgrade_log_t` are declared but
  never written, so they are not modelled.
- FirmwarePacker.ParseInt: Python's `int()` is modelled on an optional
  sign and ASCII digits. Surrounding whitespace, underscores and non-ASCII
  digits, which `int()` also accepts, are not modelled.
- YmodemSender.Sender.SendFile: Cancellation is modelled only where the
  worker blocks in a read (the `CancelNow` reply). A cancel between two
  statements is not modelled. The check for a cancel right after
  `reset_transfer_state` can never fire, so it is left out.
- YmodemSender.Transfer: The spec functions take the frames prebuilt
  from the file name and content. The sender class builds them with the
  array methods and is proved to send the same frames.
- **CancelTransfer.** `cancel_transfer` sets the flag before writing the
  two CA bytes, and `send_byte` refuses to write once the flag is set. So
  the model writes no CA. A cancel during a packet's acknowledgement wait
  reports "packet N failed", not "cancelled", because the retry loop breaks
  out first.
- **Header sizes.** A few comments and docstrings in the source give other
  sizes for the headers. The model follows the code's 24-byte
  `firmware_info_t` and 60-byte `system_config_t`.
- Bootloader.LargestImageOverruns: This is recorded as an observation
  and not a finding. The size bound (`APP_BANK_SIZE`) does not leave room
  for the 24-byte header, but the intended bound is not evident from the
  code. It could be 20480 - 24, or the header could be meant to live
  outside the bank. So the model keeps the check as written. The lemma
  states what the model's flash holds afterwards. On the device the last
  24 bytes go to bank B, which the session did not erase. Halfword
  programming of flash that is not erased fails, and the receiver ignores
  the result of `mcu_flash_write` (Boot/Protocol/YModem/ymodem.c:170), so
  there the write fails silently. The model's flash does not track erased
  state (see FlashMemory.Program).
